/** The matching loop (routing_algorithms/map_matching.hpp): forward steps, breakages, splits that go
    back in the trace, and the reconstruction of the sub-matchings. */
module MapMatching {
  import opened HiddenMarkov

  const MAX_BROKEN_STATES: nat := 10

  /** Unsigned arithmetic of the platform: 32 bits for timestamps, 64 for sizes. */
  const UNSIGNED: nat := 0x1_0000_0000
  const SIZE: nat := 0x1_0000_0000_0000_0000
  const INVALID_STATE: nat := SIZE - 1

  // ----- segments --------------------------------------------------------------------

  /** A trace as the model sees it: what each candidate emits, what each transition costs, and the clock, if
      the trace has one. */
  datatype Trace = Trace(emissions: seq<seq<Score>>, transition: (State, State) -> Score, timestamps: seq<nat>,
                         maxBrokenTime: nat)

  /** One column per point, and one reading of the clock if there is a clock. */
  ghost predicate Fits(columns: Columns, trace: Trace) {
    |columns| == |trace.emissions| && Timed(trace)
  }

  predicate Timed(trace: Trace) {
    trace.timestamps == [] || |trace.timestamps| == |trace.emissions|
  }

  /** The good timestamps before t that are left in the segment from `start`: a broken one removes the last
      good one. */
  ghost function Stack(columns: Columns, start: nat, t: nat): (stack: seq<nat>)
    requires start < t <= |columns|
    ensures forall x :: x in stack ==> start <= x < t && (x == start || !columns[x].broken)
    ensures t > start + 1 && stack == [] ==> columns[t - 1].broken
  {
    if t == start + 1 then [start]
    else
      var stack := Stack(columns, start, t - 1);
      if columns[t - 1].broken then Popped(stack) else stack + [t - 1]
  }

  ghost function Popped(stack: seq<nat>): (r: seq<nat>)
    ensures forall x :: x in r ==> x in stack
  {
    if stack == [] then [] else stack[..|stack| - 1]
  }

  /** The first broken timestamp of the segment from `start` before t. */
  ghost function FirstBroken(columns: Columns, start: nat, t: nat): (b: nat)
    requires start < t <= |columns| < UNSIGNED
    ensures b == INVALID_STATE || (start < b < t && columns[b].broken)
    ensures forall u :: start < u < t && u < b ==> !columns[u].broken
  {
    if t == start + 1 then INVALID_STATE
    else
      var b := FirstBroken(columns, start, t - 1);
      if b == INVALID_STATE && columns[t - 1].broken then t - 1 else b
  }

  /** Whether the trace is split before timestamp t: no good timestamp is left, or the last one is too
      long ago, by the clock if there is one. */
  predicate TooFar(unbroken: seq<nat>, t: nat, trace: Trace)
    requires t < |trace.emissions| && Timed(trace) && forall x :: x in unbroken ==> x < t
  {
    unbroken == [] ||
    var last := unbroken[|unbroken| - 1];
    assert last in unbroken;
    if trace.timestamps != [] then (trace.timestamps[t] - trace.timestamps[last]) % UNSIGNED > trace.maxBrokenTime
    else t - last > MAX_BROKEN_STATES
  }

  /** Two timestamps are near enough for one sub-matching: by the clock, whose difference wraps, if there is one, else
      by their number. */
  ghost predicate WithinReach(trace: Trace, p: nat, q: nat)
    requires p < q < |trace.emissions| && Timed(trace)
  {
    && (trace.timestamps != [] ==> (trace.timestamps[q] - trace.timestamps[p]) % UNSIGNED <= trace.maxBrokenTime)
    && (trace.timestamps == [] ==> q - p <= 10)
  }

  /** The good timestamps of the range [from, end) less the broken ones. */
  ghost function Balance(columns: Columns, from: nat, end: nat): int
    requires from <= end <= |columns|
  {
    if from == end then 0 else Balance(columns, from, end - 1) + if columns[end - 1].broken then -1 else 1
  }

  /** p is the last good timestamp before t that no breakage took away: of those in between, each was. */
  ghost predicate LastGood(columns: Columns, p: nat, t: nat)
    requires p < t <= |columns|
  {
    Balance(columns, p + 1, t) == 0 && NeverMoreBroken(columns, p + 1, t)
  }

  ghost predicate NeverMoreBroken(columns: Columns, from: nat, end: nat)
    requires from <= end <= |columns|
  {
    forall y :: from <= y <= end ==> Balance(columns, from, y) >= 0
  }

  /** Only one can be. */
  lemma {:induction false} LastGoodUnique(columns: Columns, p: nat, p': nat, t: nat)
    requires p < t <= |columns| && p' < t && LastGood(columns, p, t) && LastGood(columns, p', t)
    requires !columns[p].broken && !columns[p'].broken
    ensures p == p'
  {
    if p < p' {
      BalanceSplit(columns, p + 1, p' + 1, t);
    } else if p' < p {
      BalanceSplit(columns, p' + 1, p + 1, t);
    }
  }

  lemma {:induction false} BalanceSplit(columns: Columns, from: nat, middle: nat, end: nat)
    requires from <= middle <= end <= |columns|
    ensures Balance(columns, from, end) == Balance(columns, from, middle) + Balance(columns, middle, end)
    decreases end
  {
    if middle < end {
      BalanceSplit(columns, from, middle, end - 1);
    }
  }

  lemma {:induction false} StackBalance(columns: Columns, start: nat, t: nat, i: nat)
    requires start < t <= |columns| && i < |Stack(columns, start, t)|
    ensures var stack := Stack(columns, start, t);
            && stack[i] in stack && Balance(columns, stack[i] + 1, t) == |stack| - 1 - i
            && NeverMoreBroken(columns, stack[i] + 1, t)
    decreases t
  {
    var stack := Stack(columns, start, t);
    assert stack[i] in stack;
    if t > start + 1 && stack[i] != t - 1 {
      StackBalance(columns, start, t - 1, i);
    }
  }

  /** The top of the stack is that timestamp. */
  lemma {:induction false} TopIsLastGood(columns: Columns, start: nat, t: nat)
    requires start < t <= |columns| && Stack(columns, start, t) != []
    ensures var stack := Stack(columns, start, t);
            start <= stack[|stack| - 1] < t && LastGood(columns, stack[|stack| - 1], t)
  {
    StackBalance(columns, start, t, |Stack(columns, start, t)| - 1);
  }

  /** Whether timestamp t goes on in the segment from `start`. Right after a restart nobody asks whether it is
      too far; only the first start of the trace is checked. */
  ghost predicate MayStep(trace: Trace, start: nat, unbroken: seq<nat>, t: nat)
    requires t < |trace.emissions| && Timed(trace) && forall x :: x in unbroken ==> x < t
  {
    unbroken != [] && (!TooFar(unbroken, t, trace) || (t == start + 1 && !FirstStart(trace, 0, start)))
  }

  /** Column t is what the recurrence makes of the unbroken column prev. */
  ghost predicate RelaxedFrom(columns: Columns, trace: Trace, start: nat, prev: nat, t: nat)
    requires |columns| == |trace.emissions| && t < |columns|
  {
    && start <= prev < t && !columns[prev].broken && Coherent(columns[prev], |trace.emissions[prev]|)
    && columns[t] == Relaxed(columns[prev], prev, t, trace.emissions[t], trace.transition, |columns[prev].viterbi|)
  }

  /** Column t of the segment from `start`: the emissions at the start, and later the recurrence from the last
      good timestamp. */
  ghost predicate Swept(columns: Columns, trace: Trace, start: nat, t: nat)
    requires Fits(columns, trace) && start <= t < |columns|
  {
    if t == start then Starts(columns[t], t, trace.emissions[t])
    else
      var stack := Stack(columns, start, t);
      MayStep(trace, start, stack, t) && RelaxedFrom(columns, trace, start, stack[|stack| - 1], t)
  }

  /** A segment: it starts unbroken, and the recurrence filled the rest. */
  ghost predicate Segment(columns: Columns, trace: Trace, start: nat, end: nat)
    requires Fits(columns, trace)
  {
    && start < end <= |columns| && !columns[start].broken
    && forall t {:trigger Swept(columns, trace, start, t)} :: start <= t < end ==> Swept(columns, trace, start, t)
  }

  ghost predicate Parent(columns: Columns, trace: Trace, start: nat, q: State, p: State)
    requires |columns| == |trace.emissions| && q.time < |columns|
    requires q.candidate < |columns[q.time].viterbi| == |trace.emissions[q.time]|
  {
    var emission, score := trace.emissions[q.time][q.candidate], columns[q.time].viterbi[q.candidate];
    && emission.Possible?
    && if q.time == start then score == emission
       else
         && start <= p.time < q.time && p.candidate < |columns[p.time].pruned| && !columns[p.time].pruned[p.candidate]
         && !columns[p.time].broken && p.candidate < |columns[p.time].viterbi|
         && score == Value(columns[p.time], emission, trace.transition(p, q), p.candidate)
  }

  /** No live candidate of the unbroken column `prev` can reach any candidate of column t. */
  ghost predicate CutOff(columns: Columns, trace: Trace, start: nat, prev: nat, t: nat)
    requires |columns| == |trace.emissions| && t < |columns|
  {
    && start <= prev < t && !columns[prev].broken
    && forall r, s :: 0 <= r < |trace.emissions[t]| && 0 <= s < |columns[prev].pruned| && !columns[prev].pruned[s] ==>
         trace.emissions[t][r].Impossible? || trace.transition(State(prev, s), State(t, r)).Impossible?
  }

  /** Live candidates of a segment lead back towards its start, one live candidate at a time, and have earned
      their score on the way; a broken timestamp is out of reach of the last good one before it. */
  lemma {:induction false} ColumnFacts(columns: Columns, trace: Trace, start: nat, end: nat, t: nat)
    requires Fits(columns, trace) && Segment(columns, trace, start, end) && start <= t < end
    ensures Coherent(columns[t], |trace.emissions[t]|)
    ensures forall s :: 0 <= s < |columns[t].pruned| && !columns[t].pruned[s] ==>
              Parent(columns, trace, start, State(t, s), columns[t].parents[s])
    ensures t != start && columns[t].broken ==>
              var stack := Stack(columns, start, t);
              stack != [] && CutOff(columns, trace, start, stack[|stack| - 1], t)
  {
    assert Swept(columns, trace, start, t);
    if t != start {
      var stack := Stack(columns, start, t);
      var prev := stack[|stack| - 1];
      assert RelaxedFrom(columns, trace, start, prev, t);
      RelaxedSteps(columns[prev], prev, t, trace.emissions[t], trace.transition, |columns[prev].viterbi|);
      RelaxedExhausted(columns[prev], prev, t, trace.emissions[t], trace.transition);
      forall s | 0 <= s < |columns[t].pruned| && !columns[t].pruned[s]
        ensures Parent(columns, trace, start, State(t, s), columns[t].parents[s])
      {
        assert columns[t].parents[s] == State(prev, columns[t].parents[s].candidate);
      }
    }
  }

  ghost predicate AllBroken(columns: Columns, from: nat, to: nat) {
    forall t :: from <= t < to && t < |columns| ==> columns[t].broken
  }

  /** Segment k starts in the gap after the previous split and ends at split k. */
  ghost predicate SegmentAt(columns: Columns, trace: Trace, initial: nat, starts: seq<nat>, splits: seq<nat>, k: nat)
    requires Fits(columns, trace) && k < |splits| && k < |starts|
  {
    && Segment(columns, trace, starts[k], splits[k])
    && FirstStart(trace, Begin(initial, splits, k), starts[k])
    && AllBroken(columns, Begin(initial, splits, k), starts[k])
  }

  /** The first timestamp from `from` on, but for the last of the trace, at which a segment can start. */
  ghost predicate FirstStart(trace: Trace, from: nat, start: nat) {
    && from <= start < |trace.emissions| - 1 && !Hopeless(trace.emissions[start])
    && forall t :: from <= t < start ==> Hopeless(trace.emissions[t])
  }

  function Begin(initial: nat, splits: seq<nat>, k: nat): nat
    requires k <= |splits|
  {
    if k == 0 then initial else splits[k - 1]
  }

  ghost predicate Segmented(columns: Columns, trace: Trace, initial: nat, starts: seq<nat>, splits: seq<nat>, m: nat)
    requires Fits(columns, trace) && m <= |splits| && m <= |starts|
  {
    forall k {:trigger SegmentAt(columns, trace, initial, starts, splits, k)} :: 0 <= k < m ==>
      SegmentAt(columns, trace, initial, starts, splits, k)
  }

  /** Where the segment from `start` is split when timestamp t is too far: at its first breakage, if any. */
  ghost function SplitOf(columns: Columns, start: nat, t: nat): nat
    requires start < t <= |columns| < UNSIGNED
  {
    var b := FirstBroken(columns, start, t);
    if b != INVALID_STATE then b else t
  }

  /** The sweep from `start` got as far as t, which is too far, and left the columns w. */
  ghost predicate SplitAt(w: Columns, trace: Trace, start: nat, t: nat, split: nat) {
    && Fits(w, trace) && |w| < UNSIGNED && t < |w| && Segment(w, trace, start, t)
    && !MayStep(trace, start, Stack(w, start, t), t) && split == SplitOf(w, start, t)
    && OutOfReach(trace, Stack(w, start, t), t)
    && start < split <= t && (split == t || w[split].broken)
    && forall u :: start < u < split ==> !w[u].broken
  }

  /** No good timestamp is left, or the last one is out of reach. */
  ghost predicate OutOfReach(trace: Trace, unbroken: seq<nat>, t: nat)
    requires t < |trace.emissions| && Timed(trace) && forall x :: x in unbroken ==> x < t
  {
    unbroken == [] ||
    var last := unbroken[|unbroken| - 1];
    assert last in unbroken;
    !WithinReach(trace, last, t)
  }

  /** The segment from `start` was split where it had to be. */
  ghost predicate Ended(columns: Columns, trace: Trace, start: nat, split: nat) {
    split <= |columns| && exists w, t ::
      SplitAt(w, trace, start, t, split) && |w| == |columns| && w[..split] == columns[..split]
  }

  /** All but the last segment were. */
  ghost predicate AllEnded(columns: Columns, trace: Trace, starts: seq<nat>, splits: seq<nat>, m: nat)
    requires m <= |starts| && m <= |splits|
  {
    forall k {:trigger Ended(columns, trace, starts[k], splits[k])} ::
             0 <= k < m ==> Ended(columns, trace, starts[k], splits[k])
  }

  lemma {:induction false} SameStack(columns: Columns, columns': Columns, start: nat, t: nat)
    requires |columns| == |columns'| && start < t <= |columns| && forall u ::
               start <= u < t ==> columns'[u] == columns[u]
    ensures Stack(columns', start, t) == Stack(columns, start, t)
  {
    if t > start + 1 {
      SameStack(columns, columns', start, t - 1);
      assert columns'[t - 1].broken == columns[t - 1].broken;
    }
  }

  /** Segments depend only on the columns before their end. */
  lemma {:induction false} SamePrefix(columns: Columns, columns': Columns, trace: Trace, start: nat, end: nat)
    requires Fits(columns, trace) && |columns| == |columns'|
    requires Segment(columns, trace, start, end) && columns'[..end] == columns[..end]
    ensures Segment(columns', trace, start, end)
  {
    assert forall t :: 0 <= t < end ==> columns'[t] == columns'[..end][t] == columns[t];
    forall t | start <= t < end
      ensures Swept(columns', trace, start, t)
    {
      assert Swept(columns, trace, start, t);
      if t > start {
        SameStack(columns, columns', start, t);
      }
    }
  }

  lemma {:induction false} SameEnded(columns: Columns, columns': Columns, trace: Trace, starts: seq<nat>,
                                     splits: seq<nat>, m: nat, keep: nat)
    requires m <= |splits| && m <= |starts| && AllEnded(columns, trace, starts, splits, m) && |columns| == |columns'|
    requires keep <= |columns| && columns'[..keep] == columns[..keep] && forall k :: 0 <= k < m ==> splits[k] <= keep
    ensures AllEnded(columns', trace, starts, splits, m)
  {
    forall k | 0 <= k < m
      ensures Ended(columns', trace, starts[k], splits[k])
    {
      assert Ended(columns, trace, starts[k], splits[k]);
      var w, t :| SplitAt(w, trace, starts[k], t, splits[k]) && |w| == |columns|
                  && w[..splits[k]] == columns[..splits[k]];
      assert columns'[..splits[k]] == columns'[..keep][..splits[k]] == columns[..splits[k]];
    }
  }

  lemma {:induction false} SameSegments(columns: Columns, columns': Columns, trace: Trace, initial: nat,
                                        starts: seq<nat>, splits: seq<nat>, m: nat, keep: nat)
    requires Fits(columns, trace) && |columns| == |columns'| && m <= |splits| && m <= |starts|
    requires Segmented(columns, trace, initial, starts, splits, m)
    requires keep <= |columns| && columns'[..keep] == columns[..keep] && forall k :: 0 <= k < m ==> splits[k] <= keep
    ensures Segmented(columns', trace, initial, starts, splits, m)
  {
    assert forall t :: 0 <= t < keep ==> columns'[t] == columns'[..keep][t] == columns[t];
    forall k | 0 <= k < m
      ensures SegmentAt(columns', trace, initial, starts, splits, k)
    {
      assert SegmentAt(columns, trace, initial, starts, splits, k);
      assert columns'[..splits[k]] == columns'[..keep][..splits[k]] == columns[..splits[k]];
      SamePrefix(columns, columns', trace, starts[k], splits[k]);
    }
  }

  // ----- the loop state ----------------------------------------------------------------

  datatype Loop = Loop(t: nat, breakageBegin: nat, splits: seq<nat>, unbroken: seq<nat>)

  /** What holds before timestamp l.t is handled, in the segment that began at `start`. */
  ghost predicate Running(columns: Columns, trace: Trace, initial: nat, starts: seq<nat>, l: Loop) {
    && Fits(columns, trace) && |columns| < UNSIGNED && |starts| == |l.splits| + 1
    && Segmented(columns, trace, initial, starts, l.splits, |l.splits|)
       && AllEnded(columns, trace, starts, l.splits, |l.splits|)
    && (forall k :: 0 <= k < |l.splits| ==> l.splits[k] <= starts[|l.splits|])
    && var start := starts[|l.splits|];
       && FirstStart(trace, Begin(initial, l.splits, |l.splits|), start) && start < l.t <= |columns|
       && AllBroken(columns, Begin(initial, l.splits, |l.splits|), start)
       && Segment(columns, trace, start, l.t)
       && (forall u :: l.t <= u < |columns| ==> columns[u] == Blank(|trace.emissions[u]|))
       && l.unbroken == Stack(columns, start, l.t) && l.breakageBegin == FirstBroken(columns, start, l.t)
  }

  // ----- one forward step ----------------------------------------------------------------

  lemma {:induction false} ExtendSegment(columns: Columns, trace: Trace, start: nat, t: nat, c: Column)
    requires Fits(columns, trace) && t < |columns| && Segment(columns, trace, start, t)
    requires MayStep(trace, start, Stack(columns, start, t), t)
    requires var stack := Stack(columns, start, t);
             var prev := stack[|stack| - 1];
             && prev < |columns| && Coherent(columns[prev], |trace.emissions[prev]|)
             && c == Relaxed(columns[prev], prev, t, trace.emissions[t], trace.transition, |columns[prev].viterbi|)
    ensures Segment(columns[t := c], trace, start, t + 1)
  {
    var columns' := columns[t := c];
    assert columns'[..t] == columns[..t];
    SamePrefix(columns, columns', trace, start, t);
    SameStack(columns, columns', start, t);
    var stack := Stack(columns, start, t);
    assert stack[|stack| - 1] in stack;
    assert Swept(columns', trace, start, t);
  }

  /** The loop variables after timestamp t was handled: a broken one removes the last good one too. */
  function Advanced(l: Loop, broken: bool): Loop
    requires l.unbroken != []
  {
    if broken then l.(t := l.t + 1, breakageBegin := if l.t < l.breakageBegin then l.t else l.breakageBegin,
                      unbroken := l.unbroken[..|l.unbroken| - 1])
    else l.(t := l.t + 1, unbroken := l.unbroken + [l.t])
  }

  /** The loop variables are what the columns say they are. */
  lemma {:induction false} AdvanceStack(columns: Columns, start: nat, l: Loop, c: Column)
    requires start < l.t < |columns| < UNSIGNED && l.unbroken != []
    requires l.unbroken == Stack(columns, start, l.t) && l.breakageBegin == FirstBroken(columns, start, l.t)
    ensures var l' := Advanced(l, c.broken);
            l'.unbroken == Stack(columns[l.t := c], start, l.t + 1)
            && l'.breakageBegin == FirstBroken(columns[l.t := c], start, l.t + 1)
  {
    SameStack(columns, columns[l.t := c], start, l.t);
    SameBreakage(columns, columns[l.t := c], start, l.t);
  }

  lemma {:induction false} SameBreakage(columns: Columns, columns': Columns, start: nat, t: nat)
    requires |columns| == |columns'| < UNSIGNED && start < t <= |columns| && forall u ::
               start <= u < t ==> columns'[u] == columns[u]
    ensures FirstBroken(columns', start, t) == FirstBroken(columns, start, t)
  {
    if t > start + 1 {
      SameBreakage(columns, columns', start, t - 1);
    }
  }

  lemma {:induction false} AdvanceRunning(columns: Columns, trace: Trace, initial: nat, starts: seq<nat>, l: Loop,
                                          prev: nat, c: Column)
    requires Running(columns, trace, initial, starts, l) && l.t < |columns|
             && MayStep(trace, starts[|l.splits|], l.unbroken, l.t)
    requires prev == l.unbroken[|l.unbroken| - 1] && prev < |columns|
             && Coherent(columns[prev], |trace.emissions[prev]|)
    requires c == Relaxed(columns[prev], prev, l.t, trace.emissions[l.t], trace.transition, |columns[prev].viterbi|)
    ensures Running(columns[l.t := c], trace, initial, starts, Advanced(l, c.broken))
  {
    var start := starts[|l.splits|];
    var columns' := columns[l.t := c];
    ExtendSegment(columns, trace, start, l.t, c);
    assert columns'[..l.t] == columns[..l.t];
    SameSegments(columns, columns', trace, initial, starts, l.splits, |l.splits|, l.t);
    SameEnded(columns, columns', trace, starts, l.splits, |l.splits|, l.t);
    AdvanceStack(columns, start, l, c);
  }

  // ----- a split ---------------------------------------------------------------------------

  function SplitIndex(l: Loop): nat {
    if l.breakageBegin != INVALID_STATE then l.breakageBegin else l.t
  }

  /** A shorter segment. */
  lemma {:induction false} Shorter(columns: Columns, trace: Trace, start: nat, end: nat, shorter: nat)
    requires Fits(columns, trace) && Segment(columns, trace, start, end) && start < shorter <= end
    ensures Segment(columns, trace, start, shorter)
  {
    forall t | start <= t < shorter
      ensures Swept(columns, trace, start, t)
    {
    }
  }

  /** The segment that a split ends. */
  lemma {:induction false} EndSegment(columns: Columns, columns': Columns, trace: Trace, initial: nat, starts: seq<nat>,
                                      l: Loop)
    requires Running(columns, trace, initial, starts, l) && l.t < |columns|
             && !MayStep(trace, starts[|l.splits|], l.unbroken, l.t)
    requires |columns'| == |columns| && columns'[..SplitIndex(l)] == columns[..SplitIndex(l)]
    ensures starts[|l.splits|] < SplitIndex(l) <= |columns|
    ensures Segmented(columns', trace, initial, starts, l.splits + [SplitIndex(l)], |l.splits| + 1)
    ensures AllEnded(columns', trace, starts, l.splits + [SplitIndex(l)], |l.splits| + 1)
  {
    var k, index := |l.splits|, SplitIndex(l);
    var splits := l.splits + [index];
    var start := starts[k];
    assert forall t :: 0 <= t < index ==> columns'[t] == columns'[..index][t] == columns[t];
    Shorter(columns, trace, start, l.t, index);
    SamePrefix(columns, columns', trace, start, index);
    SameSegments(columns, columns', trace, initial, starts, l.splits, k, index);
    SameEnded(columns, columns', trace, starts, l.splits, k, index);
    forall i | 0 <= i < k + 1
      ensures SegmentAt(columns', trace, initial, starts, splits, i)
    {
      if i < k {
        assert SegmentAt(columns', trace, initial, starts, l.splits, i);
      }
    }
    assert SplitAt(columns, trace, start, l.t, index);
    forall i | 0 <= i < k + 1
      ensures Ended(columns', trace, starts[i], splits[i])
    {
      assert i < k ==> Ended(columns', trace, starts[i], l.splits[i]);
    }
  }

  /** A column that starts a segment is one. */
  lemma {:induction false} StartSegment(columns: Columns, trace: Trace, start: nat)
    requires Fits(columns, trace) && start < |columns|
    requires Starts(columns[start], start, trace.emissions[start]) && !Hopeless(trace.emissions[start])
    ensures Segment(columns, trace, start, start + 1)
  {
    var s :| 0 <= s < |trace.emissions[start]| && trace.emissions[start][s].Possible?;
    assert !columns[start].pruned[s];
    assert Swept(columns, trace, start, start);
  }

  /** After a split that finds a new start, the loop runs on in a new segment. */
  lemma {:induction false} RestartRunning(columns: Columns, columns': Columns, trace: Trace, initial: nat,
                                          starts: seq<nat>, l: Loop, start: nat)
    requires Running(columns, trace, initial, starts, l) && l.t < |columns|
             && !MayStep(trace, starts[|l.splits|], l.unbroken, l.t)
    requires |columns'| == |columns| && columns'[..SplitIndex(l)] == columns[..SplitIndex(l)]
    requires FirstStart(trace, SplitIndex(l), start) && Starts(columns'[start], start, trace.emissions[start])
    requires forall t :: SplitIndex(l) <= t < start ==> columns'[t].broken
    requires forall t :: start < t < |columns| ==> columns'[t] == Blank(|trace.emissions[t]|)
    ensures starts[|l.splits|] < start
    ensures Running(columns', trace, initial, starts + [start],
                    Loop(start + 1, INVALID_STATE, l.splits + [SplitIndex(l)], [start]))
  {
    EndSegment(columns, columns', trace, initial, starts, l);
    StartSegment(columns', trace, start);
    StartsStay(columns', trace, initial, starts, l.splits + [SplitIndex(l)], start);
  }

  lemma {:induction false} StartsStay(columns: Columns, trace: Trace, initial: nat, starts: seq<nat>, splits: seq<nat>,
                                      extra: nat)
    requires Fits(columns, trace) && |starts| == |splits|
             && Segmented(columns, trace, initial, starts, splits, |splits|)
    requires AllEnded(columns, trace, starts, splits, |splits|)
    ensures Segmented(columns, trace, initial, starts + [extra], splits, |splits|)
    ensures AllEnded(columns, trace, starts + [extra], splits, |splits|)
  {
    forall k | 0 <= k < |splits|
      ensures SegmentAt(columns, trace, initial, starts + [extra], splits, k)
    {
      assert SegmentAt(columns, trace, initial, starts, splits, k);
    }
    forall k | 0 <= k < |splits|
      ensures Ended(columns, trace, (starts + [extra])[k], splits[k])
    {
      assert Ended(columns, trace, starts[k], splits[k]);
    }
  }

  /** Without a new start, the good timestamps left over all lie before the split. */
  lemma {:induction false} LeftOver(columns: Columns, trace: Trace, initial: nat, starts: seq<nat>, l: Loop, x: nat)
    requires Running(columns, trace, initial, starts, l) && l.t < |columns| && x in l.unbroken
    requires forall t :: SplitIndex(l) <= t < |columns| - 1 ==> Hopeless(trace.emissions[t])
    ensures x < SplitIndex(l)
  {
    var start := starts[|l.splits|];
    ColumnFacts(columns, trace, start, l.t, x);
    var s :| 0 <= s < |columns[x].pruned| && !columns[x].pruned[s];
    assert Parent(columns, trace, start, State(x, s), columns[x].parents[s]);
  }

  // ----- the loop ----------------------------------------------------------------------------

  /** The first m splits end segments; one more, if any, repeats or undercuts the last of them. */
  ghost predicate Split(columns: Columns, trace: Trace, initial: nat, starts: seq<nat>, splits: seq<nat>, m: nat) {
    && Fits(columns, trace) && m <= |splits| <= m + 1 && m <= |starts|
    && Segmented(columns, trace, initial, starts, splits, m)
    && (|splits| == m + 1 ==> m > 0 && 0 < splits[m] <= splits[m - 1])
    && 0 < |starts| <= m + 1 && AllEnded(columns, trace, starts, splits, |starts| - 1)
    && (OutOfTrace(columns, trace, initial, starts, splits, m) || OutOfStarts(columns, trace, starts, splits, m))
  }

  /** The last segment runs to the end of the trace. It ends after its last good timestamp, and is dropped if
      none is left. */
  ghost predicate OutOfTrace(columns: Columns, trace: Trace, initial: nat, starts: seq<nat>, splits: seq<nat>, m: nat)
    requires Fits(columns, trace) && m <= |splits| && 0 < |starts| <= m + 1
  {
    && Segment(columns, trace, starts[|starts| - 1], |columns|)
    && FirstStart(trace, Begin(initial, splits, |starts| - 1), starts[|starts| - 1])
    && var stack := Stack(columns, starts[|starts| - 1], |columns|);
       if stack == [] then m + 1 == |starts| else m == |starts| && splits[m - 1] == stack[|stack| - 1] + 1
  }

  /** The last segment was split, and nothing after the split can start another one. */
  ghost predicate OutOfStarts(columns: Columns, trace: Trace, starts: seq<nat>, splits: seq<nat>, m: nat)
    requires |columns| == |trace.emissions| && m <= |splits| && 0 < |starts|
  {
    && m == |starts| && Ended(columns, trace, starts[m - 1], splits[m - 1])
    && forall t :: splits[m - 1] <= t < |columns| - 1 ==> Hopeless(trace.emissions[t])
  }

  method Restart(model: HiddenMarkovModel, ghost trace: Trace, l: Loop, ghost initial: nat, ghost starts: seq<nat>)
      returns (found: bool, start: nat)
    requires model.Valid() && model.emissions == trace.emissions && Running(model.columns, trace, initial, starts, l)
    requires l.t < |model.columns| && !MayStep(trace, starts[|l.splits|], l.unbroken, l.t)
    modifies model
    ensures model.Valid() && |model.columns| == old(|model.columns|)
    ensures found ==> starts[|l.splits|] < start < |model.columns| - 1 && !FirstStart(trace, 0, start)
    ensures found ==>
              Running(model.columns, trace, initial, starts + [start],
                      Loop(start + 1, INVALID_STATE, l.splits + [SplitIndex(l)], [start]))
    ensures !found ==> Segmented(model.columns, trace, initial, starts, l.splits + [SplitIndex(l)], |l.splits| + 1)
    ensures !found ==> AllEnded(model.columns, trace, starts, l.splits + [SplitIndex(l)], |l.splits| + 1)
    ensures !found ==> forall x :: x in l.unbroken ==> x < SplitIndex(l)
    ensures !found ==> forall t :: SplitIndex(l) <= t < |model.columns| - 1 ==> Hopeless(trace.emissions[t])
  {
    ghost var before := model.columns;
    EndSegment(before, before, trace, initial, starts, l);
    model.Clear(SplitIndex(l));
    found, start := model.Initialize(SplitIndex(l));
    if found {
      RestartRunning(before, model.columns, trace, initial, starts, l, start);
    } else {
      EndSegment(before, model.columns, trace, initial, starts, l);
      forall x | x in l.unbroken
        ensures x < SplitIndex(l)
      {
        LeftOver(before, trace, initial, starts, l, x);
      }
    }
  }

  method Advance(model: HiddenMarkovModel, trace: Trace, l0: Loop, ghost initial: nat, ghost starts: seq<nat>)
      returns (l: Loop)
    requires model.Valid() && model.emissions == trace.emissions && Running(model.columns, trace, initial, starts, l0)
    requires l0.t < |model.columns| && MayStep(trace, starts[|l0.splits|], l0.unbroken, l0.t)
    modifies model
    ensures model.Valid() && |model.columns| == old(|model.columns|)
    ensures Running(model.columns, trace, initial, starts, l) && l.t == l0.t + 1 && l.splits == l0.splits
  {
    var prev := l0.unbroken[|l0.unbroken| - 1];
    assert prev in l0.unbroken;
    var c := Relax(model.columns[prev], prev, l0.t, trace.emissions[l0.t], trace.transition);
    AdvanceRunning(model.columns, trace, initial, starts, l0, prev, c);
    model.columns := model.columns[l0.t := c];
    l := Advanced(l0, c.broken);
  }

  /** The loop over the trace. It terminates although a split may go back: restart points strictly
      increase. */
  method Viterbi(model: HiddenMarkovModel, trace: Trace, initial: nat)
      returns (splits: seq<nat>, ghost starts: seq<nat>, ghost m: nat)
    requires model.Valid() && model.emissions == trace.emissions && |model.columns| < UNSIGNED
             && FirstStart(trace, 0, initial)
    requires Running(model.columns, trace, initial, [initial], Loop(initial + 1, INVALID_STATE, [], [initial]))
    modifies model
    ensures model.Valid() && |model.columns| == old(|model.columns|)
    ensures Split(model.columns, trace, initial, starts, splits, m)
  {
    starts := [initial];
    var l := Loop(initial + 1, INVALID_STATE, [], [initial]);
    var stopped := false;
    while l.t < |model.columns| && !stopped
      invariant model.Valid() && |model.columns| == old(|model.columns|)
      invariant !stopped ==> Running(model.columns, trace, initial, starts, l)
      invariant !stopped ==> l.t > starts[|l.splits|] + 1 || FirstStart(trace, 0, starts[|l.splits|])
      invariant stopped ==> Stopped(model.columns, trace, initial, starts, l)
      decreases !stopped, if stopped then 0 else |model.columns| - starts[|l.splits|], |model.columns| - l.t
    {
      if TooFar(l.unbroken, l.t, trace) {
        var found, start := Restart(model, trace, l, initial, starts);
        if found {
          l := Loop(start + 1, INVALID_STATE, l.splits + [SplitIndex(l)], [start]);
          starts := starts + [start];
        } else {
          l := l.(splits := l.splits + [SplitIndex(l)], breakageBegin := INVALID_STATE);
          stopped := true;
        }
      }
      if !stopped {
        l := Advance(model, trace, l, initial, starts);
      }
    }
    splits := l.splits;
    if l.unbroken != [] {
      splits := splits + [l.unbroken[|l.unbroken| - 1] + 1];
    }
    if stopped {
      FinishStopped(model.columns, trace, initial, starts, l, splits);
      m := |starts|;
    } else {
      FinishRunning(model.columns, trace, initial, starts, l, splits);
      m := |splits|;
    }
  }

  /** The loop gave up: nothing after the last split can start a segment. */
  ghost predicate Stopped(columns: Columns, trace: Trace, initial: nat, starts: seq<nat>, l: Loop) {
    && Fits(columns, trace) && |l.splits| == |starts| > 0
    && Segmented(columns, trace, initial, starts, l.splits, |starts|)
       && AllEnded(columns, trace, starts, l.splits, |starts|)
    && (forall x :: x in l.unbroken ==> x < l.splits[|starts| - 1])
    && (forall t :: l.splits[|starts| - 1] <= t < |columns| - 1 ==> Hopeless(trace.emissions[t]))
  }

  lemma {:induction false} FinishStopped(columns: Columns, trace: Trace, initial: nat, starts: seq<nat>, l: Loop,
                                         splits: seq<nat>)
    requires Stopped(columns, trace, initial, starts, l)
    requires splits == if l.unbroken == [] then l.splits else l.splits + [l.unbroken[|l.unbroken| - 1] + 1]
    ensures Split(columns, trace, initial, starts, splits, |starts|)
  {
    if l.unbroken != [] {
      assert l.unbroken[|l.unbroken| - 1] in l.unbroken;
      SegmentsStay(columns, trace, initial, starts, l.splits, l.unbroken[|l.unbroken| - 1] + 1);
    }
    EndsStay(columns, trace, starts, l.splits, splits);
  }

  lemma {:induction false} EndsStay(columns: Columns, trace: Trace, starts: seq<nat>, splits: seq<nat>,
                                    splits': seq<nat>)
    requires |splits| <= |starts| && AllEnded(columns, trace, starts, splits, |splits|) && splits <= splits'
    ensures AllEnded(columns, trace, starts, splits', |splits|)
  {
    forall k | 0 <= k < |splits|
      ensures Ended(columns, trace, starts[k], splits'[k])
    {
      assert Ended(columns, trace, starts[k], splits[k]) && splits'[k] == splits[k];
    }
  }

  lemma {:induction false} FinishRunning(columns: Columns, trace: Trace, initial: nat, starts: seq<nat>, l: Loop,
                                         splits: seq<nat>)
    requires Running(columns, trace, initial, starts, l) && l.t == |columns|
    requires splits == if l.unbroken == [] then l.splits else l.splits + [l.unbroken[|l.unbroken| - 1] + 1]
    ensures Split(columns, trace, initial, starts, splits, |splits|)
  {
    if l.unbroken != [] {
      LastSegment(columns, trace, initial, starts, l);
      EndsStay(columns, trace, starts, l.splits, splits);
    }
    assert OutOfTrace(columns, trace, initial, starts, splits, |splits|);
  }

  /** The last segment ends after its last good timestamp. */
  lemma {:induction false} LastSegment(columns: Columns, trace: Trace, initial: nat, starts: seq<nat>, l: Loop)
    requires Running(columns, trace, initial, starts, l) && l.unbroken != []
    ensures Segmented(columns, trace, initial, starts, l.splits + [l.unbroken[|l.unbroken| - 1] + 1], |starts|)
  {
    var last := l.unbroken[|l.unbroken| - 1];
    assert last in l.unbroken;
    var splits := l.splits + [last + 1];
    Shorter(columns, trace, starts[|l.splits|], l.t, last + 1);
    forall i | 0 <= i < |starts|
      ensures SegmentAt(columns, trace, initial, starts, splits, i)
    {
      if i < |l.splits| {
        assert SegmentAt(columns, trace, initial, starts, l.splits, i);
      }
    }
  }

  lemma {:induction false} SegmentsStay(columns: Columns, trace: Trace, initial: nat, starts: seq<nat>,
                                        splits: seq<nat>, extra: nat)
    requires Fits(columns, trace) && |starts| == |splits|
             && Segmented(columns, trace, initial, starts, splits, |splits|)
    ensures Segmented(columns, trace, initial, starts, splits + [extra], |splits|)
  {
    forall i | 0 <= i < |splits|
      ensures SegmentAt(columns, trace, initial, starts, splits + [extra], i)
    {
      assert SegmentAt(columns, trace, initial, starts, splits, i);
    }
  }

  // ----- reconstruction ------------------------------------------------------------------------

  /** A chain of live candidates, each the back pointer of the next, from the first timestamp of a
      segment to its last unbroken one. */
  ghost predicate Chain(columns: Columns, path: seq<State>) {
    && (forall i :: 0 <= i < |path| ==> Live(columns, path[i]))
    && (forall i, j :: 0 <= i && j == i + 1 && j < |path| ==> Follows(columns, path[i], path[j]))
  }

  ghost predicate Live(columns: Columns, p: State) {
    p.time < |columns| && p.candidate < |columns[p.time].pruned| && !columns[p.time].pruned[p.candidate]
    && !columns[p.time].broken
  }

  ghost predicate Follows(columns: Columns, p: State, q: State) {
    p.time < q.time < |columns| && q.candidate < |columns[q.time].parents| && columns[q.time].parents[q.candidate] == p
  }

  /** The log probability of a path: emissions of its candidates and transitions between them. */
  ghost function PathScore(trace: Trace, path: seq<State>): Score
    requires forall i :: 0 <= i < |path| ==>
               path[i].time < |trace.emissions| && path[i].candidate < |trace.emissions[path[i].time]|
  {
    if path == [] then Impossible
    else
      var last := path[|path| - 1];
      var emission := trace.emissions[last.time][last.candidate];
      if |path| == 1 then emission
      else Plus(Plus(PathScore(trace, path[..|path| - 1]), emission), trace.transition(path[|path| - 2], last))
  }

  /** Candidates of the path exist. */
  ghost predicate OnTrace(columns: Columns, trace: Trace, path: seq<State>) {
    && |columns| == |trace.emissions|
    && forall i :: 0 <= i < |path| ==>
         && path[i].time < |columns| && path[i].candidate < |trace.emissions[path[i].time]|
         && |columns[path[i].time].viterbi| == |trace.emissions[path[i].time]|
  }

  /** The score in the table is the log probability of the path. */
  ghost predicate Scored(columns: Columns, trace: Trace, path: seq<State>) {
    && path != [] && OnTrace(columns, trace, path)
    && columns[path[|path| - 1].time].viterbi[path[|path| - 1].candidate] == PathScore(trace, path)
  }

  lemma {:induction false} ChainScore(columns: Columns, trace: Trace, begin: nat, end: nat, path: seq<State>)
    requires Fits(columns, trace) && Segment(columns, trace, begin, end)
    requires path != [] && Chain(columns, path) && path[0].time == begin && path[|path| - 1].time < end
    ensures Scored(columns, trace, path) && PathScore(trace, path).Possible?
    decreases |path|
  {
    var k := |path| - 1;
    var last := path[k];
    assert Live(columns, last);
    if k == 0 {
      ColumnFacts(columns, trace, begin, end, begin);
      assert Parent(columns, trace, begin, last, columns[begin].parents[last.candidate]);
    } else {
      assert Follows(columns, path[k - 1], path[k]);
      ChainScore(columns, trace, begin, end, path[..k]);
      if k > 1 {
        ChainIncreases(columns, path, 0, k);
      }
      ColumnFacts(columns, trace, begin, end, last.time);
      assert Parent(columns, trace, begin, last, path[k - 1]);
      assert path[..k][|path[..k]| - 1] == path[k - 1];
    }
  }

  /** Another choice of candidates at the same timestamps. */
  ghost predicate Rival(trace: Trace, path: seq<State>, q: seq<State>) {
    |q| == |path| && forall i :: 0 <= i < |q| ==>
      q[i].time == path[i].time < |trace.emissions| && q[i].candidate < |trace.emissions[q[i].time]|
  }

  lemma {:induction false} PlusMonotone(a: Score, b: Score, emission: Score, transition: Score)
    requires !Less(a, b)
    ensures !Less(Plus(Plus(a, emission), transition), Plus(Plus(b, emission), transition))
  {
  }

  /** No transition between the two timestamps gains late. */
  ghost predicate SafeStep(trace: Trace, p: State, q: State) {
    p.time < |trace.emissions| && q.time < |trace.emissions| ==>
      NoLateGain(trace.transition, p.time, q.time, |trace.emissions[p.time]|, |trace.emissions[q.time]|)
  }

  ghost predicate SafeAlong(trace: Trace, path: seq<State>) {
    forall i, j {:trigger SafeStep(trace, path[i], path[j])} ::
             0 <= i && j == i + 1 && j < |path| ==> SafeStep(trace, path[i], path[j])
  }

  /** If no transition along the chain gains late, no choice of candidates at the timestamps of a chain beats the
      score in the table. */
  lemma {:induction false} NoRivalWins(columns: Columns, trace: Trace, begin: nat, end: nat, path: seq<State>,
                                       q: seq<State>)
    requires Fits(columns, trace) && Segment(columns, trace, begin, end) && SafeAlong(trace, path)
    requires path != [] && Chain(columns, path) && path[0].time == begin && path[|path| - 1].time < end
             && Rival(trace, path, q)
    ensures var last := q[|q| - 1];
            last.candidate < |columns[last.time].viterbi|
            && !Less(columns[last.time].viterbi[last.candidate], PathScore(trace, q))
    decreases |path|
  {
    var k := |path| - 1;
    var last := q[k];
    assert Live(columns, path[k]);
    if k == 0 {
      assert Swept(columns, trace, begin, begin);
    } else {
      assert Follows(columns, path[k - 1], path[k]);
      SafeShorter(trace, path, k);
      NoRivalWins(columns, trace, begin, end, path[..k], q[..k]);
      ChainIncreases(columns, path, 0, k);
      ChainRelaxes(columns, trace, begin, end, path[k - 1], path[k]);
      assert SafeStep(trace, path[k - 1], path[k]);
      OneStep(columns, trace, path[k - 1].time, last, q);
    }
  }

  lemma {:induction false} SafeShorter(trace: Trace, path: seq<State>, k: nat)
    requires SafeAlong(trace, path) && k <= |path|
    ensures SafeAlong(trace, path[..k])
  {
    forall i, j | 0 <= i && j == i + 1 && j < k
      ensures SafeStep(trace, path[..k][i], path[..k][j])
    {
      assert SafeStep(trace, path[i], path[j]);
    }
  }

  /** A back pointer leads to the timestamp from which its column was computed. */
  lemma {:induction false} ChainRelaxes(columns: Columns, trace: Trace, begin: nat, end: nat, p: State, q: State)
    requires Fits(columns, trace) && Segment(columns, trace, begin, end) && begin < q.time < end
    requires Live(columns, q) && Follows(columns, p, q)
    ensures RelaxedFrom(columns, trace, begin, p.time, q.time)
    ensures var stack := Stack(columns, begin, q.time);
            MayStep(trace, begin, stack, q.time) && p.time == stack[|stack| - 1]
  {
    assert Swept(columns, trace, begin, q.time);
    var stack := Stack(columns, begin, q.time);
    var prev := stack[|stack| - 1];
    RelaxedSteps(columns[prev], prev, q.time, trace.emissions[q.time], trace.transition, |columns[prev].viterbi|);
  }

  lemma {:induction false} OneStep(columns: Columns, trace: Trace, prev: nat, last: State, q: seq<State>)
    requires |columns| == |trace.emissions| && prev < last.time < |columns| && Rival(trace, q, q) && |q| >= 2
    requires last == q[|q| - 1] && q[|q| - 2].time == prev && Coherent(columns[prev], |trace.emissions[prev]|)
    requires |columns[last.time].viterbi| == |trace.emissions[last.time]|
    requires columns[last.time] ==
             Relaxed(columns[prev], prev, last.time, trace.emissions[last.time], trace.transition,
                     |columns[prev].viterbi|)
    requires NoLateGain(trace.transition, prev, last.time, |trace.emissions[prev]|, |trace.emissions[last.time]|)
    requires !Less(columns[prev].viterbi[q[|q| - 2].candidate], PathScore(trace, q[..|q| - 1]))
    ensures !Less(columns[last.time].viterbi[last.candidate], PathScore(trace, q))
  {
    var s := q[|q| - 2].candidate;
    var before, emission := columns[prev], trace.emissions[last.time][last.candidate];
    RelaxedBest(before, prev, last.time, trace.emissions[last.time], trace.transition);
    assert NoBetter(before, prev, last.time, columns[last.time], trace.emissions[last.time], trace.transition,
                    last.candidate);
    PlusMonotone(before.viterbi[s], PathScore(trace, q[..|q| - 1]), emission, trace.transition(q[|q| - 2], last));
  }

  /** No choice of candidates at the timestamps of the path is more probable. */
  ghost predicate Optimal(trace: Trace, path: seq<State>) {
    Rival(trace, path, path) && forall q :: Rival(trace, path, q) ==> !Less(PathScore(trace, path), PathScore(trace, q))
  }

  /** Viterbi: the chain that ends at the best candidate is the most probable path. */
  lemma {:induction false} ChainIsOptimal(columns: Columns, trace: Trace, begin: nat, end: nat, path: seq<State>)
    requires Fits(columns, trace) && Segment(columns, trace, begin, end) && SafeAlong(trace, path)
    requires path != [] && Chain(columns, path) && path[0].time == begin && path[|path| - 1].time < end
    requires Scored(columns, trace, path) && BestEnd(columns, path)
    ensures Optimal(trace, path)
  {
    forall q | Rival(trace, path, q)
      ensures !Less(PathScore(trace, path), PathScore(trace, q))
    {
      NoRivalWins(columns, trace, begin, end, path, q);
    }
  }

  /** No candidate at the end of the path has a better score. */
  ghost predicate BestEnd(columns: Columns, path: seq<State>)
    requires path != []
  {
    var last := path[|path| - 1];
    && last.time < |columns| && last.candidate < |columns[last.time].viterbi|
    && forall s :: 0 <= s < |columns[last.time].viterbi| ==>
         !Less(columns[last.time].viterbi[last.candidate], columns[last.time].viterbi[s])
  }

  /** The best candidate of a column, as max_element finds it. */
  method BestCandidate(c: Column) returns (best: nat)
    requires |c.viterbi| > 0
    ensures best < |c.viterbi| && forall s :: 0 <= s < |c.viterbi| ==> !Less(c.viterbi[best], c.viterbi[s])
  {
    best := 0;
    for s := 1 to |c.viterbi|
      invariant best < |c.viterbi| && forall r :: 0 <= r < s ==> !Less(c.viterbi[best], c.viterbi[r])
    {
      if Less(c.viterbi[best], c.viterbi[s]) {
        best := s;
      }
    }
  }

  /** The best candidate of an unbroken column is live. */
  lemma {:induction false} BestIsLive(c: Column, size: nat, best: nat)
    requires Coherent(c, size) && !c.broken && best < size
    requires forall s :: 0 <= s < size ==> !Less(c.viterbi[best], c.viterbi[s])
    ensures !c.pruned[best]
  {
    var s :| 0 <= s < size && !c.pruned[s];
    assert !Less(c.viterbi[best], c.viterbi[s]);
  }

  /** Where a segment really ends and starts: the last and the first unbroken timestamp. */
  method Trim(columns: Columns, begin0: nat, end: nat) returns (begin: nat, last: nat)
    requires 0 < end <= |columns| && begin0 <= |columns|
    requires begin0 < end ==> exists t :: begin0 <= t < end && !columns[t].broken
    ensures begin0 < end ==> begin0 <= begin <= last < end && !columns[begin].broken && !columns[last].broken
    ensures begin0 < end ==> AllBroken(columns, begin0, begin) && AllBroken(columns, last + 1, end)
    ensures begin0 >= end ==> begin == begin0 && last == end - 1
  {
    begin, last := begin0, end - 1;
    ghost var t := begin0;
    if begin0 < end {
      t :| begin0 <= t < end && !columns[t].broken;
    }
    while last >= begin0 && columns[last].broken
      invariant begin0 < end ==> begin0 <= t <= last < end
      invariant begin0 >= end ==> last == end - 1
      invariant forall u :: last < u < end ==> columns[u].broken
    {
      last := last - 1;
    }
    while begin < end && columns[begin].broken
      invariant begin0 < end ==> begin0 <= begin <= t
      invariant begin0 >= end ==> begin == begin0
      invariant forall u :: begin0 <= u < begin ==> columns[u].broken
    {
      begin := begin + 1;
    }
  }

  /** Follows the back pointers. No column on the way is broken and no pointer stands still, so
      neither guard of the loop ever fires. */
  method Follow(columns: Columns, trace: Trace, begin: nat, end: nat, from: State) returns (path: seq<State>)
    requires Fits(columns, trace) && Segment(columns, trace, begin, end) && begin <= from.time < end
             && Live(columns, from)
    ensures path != [] && Chain(columns, path) && path[0].time == begin && path[|path| - 1] == from
  {
    var p := from;
    path := [];
    while p.time > begin
      invariant begin <= p.time < end && Live(columns, p)
      invariant Chain(columns, [p] + path) && ([p] + path)[|path|] == from
      decreases p.time
    {
      assert !columns[p.time].broken;
      path := [p] + path;
      ColumnFacts(columns, trace, begin, end, p.time);
      var next := columns[p.time].parents[p.candidate];
      NextIsLive(columns, trace, begin, end, p, next);
      assert next.time != p.time;
      ExtendChain(columns, next, path);
      p := next;
    }
    path := [p] + path;
  }

  lemma {:induction false} NextIsLive(columns: Columns, trace: Trace, begin: nat, end: nat, p: State, next: State)
    requires Fits(columns, trace) && Segment(columns, trace, begin, end) && begin < p.time < end && Live(columns, p)
    requires p.candidate < |columns[p.time].parents| && next == columns[p.time].parents[p.candidate]
    ensures begin <= next.time < p.time && Live(columns, next) && Follows(columns, next, p)
  {
    ColumnFacts(columns, trace, begin, end, p.time);
    assert Parent(columns, trace, begin, p, next);
  }

  lemma {:induction false} ExtendChain(columns: Columns, p: State, path: seq<State>)
    requires Chain(columns, path) && Live(columns, p) && (path != [] ==> Follows(columns, p, path[0]))
    ensures Chain(columns, [p] + path)
  {
    var all := [p] + path;
    forall i, j | 0 <= i && j == i + 1 && j < |all|
      ensures Follows(columns, all[i], all[j])
    {
      if i > 0 {
        assert all[i] == path[i - 1] && all[j] == path[j - 1];
      }
    }
  }

  /** One sub-matching; empty if it would hold fewer than two points. */
  method Rebuild(columns: Columns, trace: Trace, begin0: nat, end: nat, ghost start: nat, ghost good: bool)
      returns (path: seq<State>)
    requires Fits(columns, trace) && |columns| < UNSIGNED && 0 < end <= |columns| && begin0 <= |columns|
    requires forall t :: 0 <= t < |columns| ==> Coherent(columns[t], |trace.emissions[t]|)
    requires if good then begin0 <= start && Segment(columns, trace, start, end)
             && AllBroken(columns, begin0, start) else end <= begin0
    ensures Rebuilds(columns, trace, start, end, good, path)
  {
    var begin, last := Trim(columns, begin0, end);
    if (last - begin + 1) % SIZE < 2 || |columns[last].viterbi| == 0 {
      return [];
    }
    var best := BestCandidate(columns[last]);
    if last < begin {
      path := [State(last, best)];
    } else {
      BestIsLive(columns[last], |trace.emissions[last]|, best);
      path := Follow(columns, trace, begin, end, State(last, best));
      ChainScore(columns, trace, begin, end, path);
      if SafeAlong(trace, path) {
        ChainIsOptimal(columns, trace, begin, end, path);
      }
    }
    if |path| < 2 {
      path := [];
    }
  }

  // ----- the whole matching ------------------------------------------------------------------------

  /** The sub-matchings are chains of at least two points, each after the one before. */
  ghost predicate Matchings(columns: Columns, trace: Trace, subs: seq<seq<State>>) {
    && (forall k {:trigger GoodMatching(columns, trace, subs[k])} ::
          0 <= k < |subs| ==> GoodMatching(columns, trace, subs[k]))
    && (forall k, l {:trigger Apart(subs[k], subs[l])} ::
          0 <= k && l == k + 1 && l < |subs| ==> Apart(subs[k], subs[l]))
  }

  /** At least two points, chained by back pointers, with the score that the table gives its end, which
      no other candidate there beats; the most probable path if no transition along it gains late. */
  ghost predicate GoodMatching(columns: Columns, trace: Trace, path: seq<State>) {
    && |path| >= 2 && Chain(columns, path) && Scored(columns, trace, path) && BestEnd(columns, path)
    && PathScore(trace, path).Possible? && (SafeAlong(trace, path) ==> Optimal(trace, path))
  }

  ghost predicate Apart(a: seq<State>, b: seq<State>) {
    a != [] && b != [] && a[|a| - 1].time < b[0].time
  }

  /** Times strictly increase along a chain. */
  lemma {:induction false} ChainIncreases(columns: Columns, path: seq<State>, i: nat, j: nat)
    requires Chain(columns, path) && i < j < |path|
    ensures path[i].time < path[j].time
    decreases j - i
  {
    assert Follows(columns, path[j - 1], path[j]);
    if i < j - 1 {
      ChainIncreases(columns, path, i, j - 1);
    }
  }

  /** Any two sub-matchings use disjoint, increasing ranges of timestamps. */
  lemma {:induction false} RangesDisjoint(columns: Columns, trace: Trace, subs: seq<seq<State>>, k: nat, l: nat, i: nat,
                                          j: nat)
    requires Matchings(columns, trace, subs) && k < l < |subs| && i < |subs[k]| && j < |subs[l]|
    ensures subs[k][i].time < subs[l][j].time
    decreases l - k
  {
    assert Apart(subs[l - 1], subs[l]) && GoodMatching(columns, trace, subs[l])
           && GoodMatching(columns, trace, subs[k]);
    if j > 0 {
      ChainIncreases(columns, subs[l], 0, j);
    }
    var last := |subs[l - 1]| - 1;
    if k == l - 1 {
      if i < last {
        ChainIncreases(columns, subs[k], i, last);
      }
    } else {
      RangesDisjoint(columns, trace, subs, k, l - 1, i, last);
    }
  }

  /** A possible path of at least two points in increasing order of time; the most probable one over
      these timestamps if no transition along it gains late. */
  ghost predicate GoodPath(trace: Trace, path: seq<State>) {
    && |path| >= 2 && Rival(trace, path, path) && PathScore(trace, path).Possible?
    && (forall i, j :: 0 <= i < j < |path| ==> path[i].time < path[j].time)
    && (SafeAlong(trace, path) ==> Optimal(trace, path))
  }

  /** Good paths in disjoint, increasing ranges of timestamps. */
  ghost predicate GoodAnswer(trace: Trace, subs: seq<seq<State>>) {
    && (forall k {:trigger GoodPath(trace, subs[k])} :: 0 <= k < |subs| ==> GoodPath(trace, subs[k]))
    && (forall k, l, i, j :: 0 <= k < l < |subs| && 0 <= i < |subs[k]| && 0 <= j < |subs[l]| ==>
          subs[k][i].time < subs[l][j].time)
  }

  /** What the tables say about sub-matchings is what a caller wants to know. */
  lemma {:induction false} AnswerIsGood(columns: Columns, trace: Trace, subs: seq<seq<State>>)
    requires Matchings(columns, trace, subs)
    ensures GoodAnswer(trace, subs)
  {
    forall k | 0 <= k < |subs|
      ensures GoodPath(trace, subs[k])
    {
      assert GoodMatching(columns, trace, subs[k]);
      forall i, j | 0 <= i < j < |subs[k]|
        ensures subs[k][i].time < subs[k][j].time
      {
        ChainIncreases(columns, subs[k], i, j);
      }
    }
    forall k, l, i, j | 0 <= k < l < |subs| && 0 <= i < |subs[k]| && 0 <= j < |subs[l]|
      ensures subs[k][i].time < subs[l][j].time
    {
      RangesDisjoint(columns, trace, subs, k, l, i, j);
    }
  }

  /** The path runs from the first to the last unbroken timestamp of the segment [start, end). */
  ghost predicate Spans(columns: Columns, path: seq<State>, start: nat, end: nat) {
    && path != [] && path[0].time == start < path[|path| - 1].time < end
    && AllBroken(columns, path[|path| - 1].time + 1, end)
  }

  /** The segments, of the first `upto`, with more than one unbroken timestamp. */
  ghost function Pieces(columns: Columns, starts: seq<nat>, splits: seq<nat>, upto: nat): (pieces: seq<nat>)
    requires upto <= |starts| && upto <= |splits|
    ensures forall j :: 0 <= j < |pieces| ==> pieces[j] < upto
    ensures forall k :: k in pieces <==> 0 <= k < upto && !AllBroken(columns, starts[k] + 1, splits[k])
  {
    if upto == 0 then []
    else
      var pieces := Pieces(columns, starts, splits, upto - 1);
      if AllBroken(columns, starts[upto - 1] + 1, splits[upto - 1]) then pieces else pieces + [upto - 1]
  }

  /** One sub-matching for each of these segments, in order, and no other. */
  ghost predicate AllEmitted(columns: Columns, subs: seq<seq<State>>, starts: seq<nat>, splits: seq<nat>, upto: nat)
    requires upto <= |starts| && upto <= |splits|
  {
    var pieces := Pieces(columns, starts, splits, upto);
    |subs| == |pieces| && forall j :: 0 <= j < |subs| ==> Spans(columns, subs[j], starts[pieces[j]], splits[pieces[j]])
  }

  /** A segment that was split holds no breakage. */
  lemma {:induction false} EndedUnbroken(columns: Columns, trace: Trace, start: nat, split: nat, u: nat)
    requires Ended(columns, trace, start, split) && start < u < split
    ensures !columns[u].broken
  {
    var w, t :| SplitAt(w, trace, start, t, split) && |w| == |columns| && w[..split] == columns[..split];
    assert columns[u] == columns[..split][u] == w[u];
  }

  /** The answer is empty exactly when no segment has two unbroken timestamps. */
  lemma {:induction false} EmptyIff(columns: Columns, subs: seq<seq<State>>, starts: seq<nat>, splits: seq<nat>, m: nat)
    requires m <= |starts| && m <= |splits| && AllEmitted(columns, subs, starts, splits, m)
    ensures subs == [] <==> forall k :: 0 <= k < m ==> AllBroken(columns, starts[k] + 1, splits[k])
  {
    var pieces := Pieces(columns, starts, splits, m);
    if subs != [] {
      assert pieces[0] in pieces;
    }
  }

  // ----- how far apart the points of a sub-matching are ----------------------------------------------

  /** From one point of a path to the next: no other good timestamp was left in between, and the two are within reach.
      Nobody asks that of the first step after a restart. */
  ghost predicate GoodStep(columns: Columns, trace: Trace, initial: nat, path: seq<State>, i: nat)
    requires Fits(columns, trace) && i + 1 < |path|
  {
    var p, q := path[i].time, path[i + 1].time;
    && p < q < |columns| && !columns[p].broken && LastGood(columns, p, q)
    && (WithinReach(trace, p, q) || (i == 0 && q == p + 1 && p != initial))
  }

  ghost predicate GoodSteps(columns: Columns, trace: Trace, initial: nat, path: seq<State>)
    requires Fits(columns, trace)
  {
    forall i {:trigger GoodStep(columns, trace, initial, path, i)} :: 0 <= i < |path| - 1 ==>
      GoodStep(columns, trace, initial, path, i)
  }

  lemma {:induction false} ChainSteps(columns: Columns, trace: Trace, initial: nat, begin: nat, end: nat,
                                      path: seq<State>, i: nat)
    requires Fits(columns, trace) && Segment(columns, trace, begin, end) && FirstStart(trace, 0, initial)
    requires Chain(columns, path) && path != [] && path[0].time == begin && path[|path| - 1].time < end
    requires i + 1 < |path|
    ensures GoodStep(columns, trace, initial, path, i)
  {
    var p, q := path[i], path[i + 1];
    assert Live(columns, p) && Live(columns, q) && Follows(columns, p, q);
    if i > 0 {
      ChainIncreases(columns, path, 0, i);
    }
    if i + 1 < |path| - 1 {
      ChainIncreases(columns, path, i + 1, |path| - 1);
    }
    ChainRelaxes(columns, trace, begin, end, p, q);
    TopIsLastGood(columns, begin, q.time);
    if q.time == begin + 1 && !FirstStart(trace, 0, begin) {
      assert p.time == begin != initial;
    }
  }

  lemma {:induction false} PathSteps(columns: Columns, trace: Trace, initial: nat, begin: nat, end: nat,
                                     path: seq<State>)
    requires Fits(columns, trace) && Segment(columns, trace, begin, end) && FirstStart(trace, 0, initial)
    requires Chain(columns, path) && path != [] && path[0].time == begin && path[|path| - 1].time < end
    ensures GoodSteps(columns, trace, initial, path)
  {
    forall i | 0 <= i < |path| - 1
      ensures GoodStep(columns, trace, initial, path, i)
    {
      ChainSteps(columns, trace, initial, begin, end, path, i);
    }
  }

  /** Sub-matching j, and the segment that it was made of. */
  lemma {:induction false} EmittedAt(columns: Columns, trace: Trace, initial: nat, starts: seq<nat>, splits: seq<nat>,
                                     m: nat, subs: seq<seq<State>>, j: nat) returns (k: nat)
    requires Split(columns, trace, initial, starts, splits, m) && j < |subs|
    requires AllEmitted(columns, subs, starts, splits, m)
    ensures k < m && Segment(columns, trace, starts[k], splits[k]) && Spans(columns, subs[j], starts[k], splits[k])
  {
    var pieces := Pieces(columns, starts, splits, m);
    k := pieces[j];
    assert k in pieces && SegmentAt(columns, trace, initial, starts, splits, k);
  }

  lemma {:induction false} EmittedSteps(columns: Columns, trace: Trace, initial: nat, starts: seq<nat>,
                                        splits: seq<nat>, m: nat, subs: seq<seq<State>>)
    requires Split(columns, trace, initial, starts, splits, m) && FirstStart(trace, 0, initial)
    requires Matchings(columns, trace, subs) && AllEmitted(columns, subs, starts, splits, m)
    ensures forall j :: 0 <= j < |subs| ==> GoodSteps(columns, trace, initial, subs[j])
  {
    forall j | 0 <= j < |subs|
      ensures GoodSteps(columns, trace, initial, subs[j])
    {
      var k := EmittedAt(columns, trace, initial, starts, splits, m, subs, j);
      assert GoodMatching(columns, trace, subs[j]);
      PathSteps(columns, trace, initial, starts[k], splits[k], subs[j]);
    }
  }

  lemma {:induction false} MatchingsAppend(columns: Columns, trace: Trace, subs: seq<seq<State>>, path: seq<State>)
    requires Matchings(columns, trace, subs) && GoodMatching(columns, trace, path)
    requires subs != [] ==> Apart(subs[|subs| - 1], path)
    ensures Matchings(columns, trace, subs + [path])
  {
    var all := subs + [path];
    forall k | 0 <= k < |all|
      ensures GoodMatching(columns, trace, all[k])
    {
      assert k < |subs| ==> GoodMatching(columns, trace, subs[k]);
    }
    forall k, l | 0 <= k && l == k + 1 && l < |all|
      ensures Apart(all[k], all[l])
    {
      assert l < |subs| ==> Apart(subs[k], subs[l]);
    }
  }

  /** The last point of the last sub-matching lies before `begin`. */
  ghost predicate EndsBefore(subs: seq<seq<State>>, begin: nat) {
    subs != [] ==> subs[|subs| - 1] != [] && subs[|subs| - 1][|subs[|subs| - 1]| - 1].time < begin
  }

  /** After the first k splits. */
  ghost predicate Rebuilt(columns: Columns, trace: Trace, initial: nat, starts: seq<nat>, splits: seq<nat>, m: nat,
                          subs: seq<seq<State>>, k: nat)
    requires k <= |splits| && m <= |splits| && m <= |starts|
  {
    && Matchings(columns, trace, subs) && AllEmitted(columns, subs, starts, splits, if k < m then k else m)
    && (k <= m ==> EndsBefore(subs, Begin(initial, splits, k)))
  }

  /** What Rebuild promises for split k. */
  ghost predicate Rebuilds(columns: Columns, trace: Trace, start: nat, end: nat, good: bool, path: seq<State>) {
    && (path != [] ==>
          && good && GoodMatching(columns, trace, path)
          && Spans(columns, path, start, end))
    && (path == [] && good ==> AllBroken(columns, start + 1, end))
  }

  lemma {:induction false} RebuiltStep(columns: Columns, trace: Trace, initial: nat, starts: seq<nat>, splits: seq<nat>,
                                       m: nat, subs: seq<seq<State>>, k: nat, path: seq<State>)
    requires k < |splits| && m <= |splits| && m <= |starts|
             && Rebuilt(columns, trace, initial, starts, splits, m, subs, k)
    requires Rebuilds(columns, trace, if k < m then starts[k] else 0, splits[k], k < m, path)
    requires k < m ==> Begin(initial, splits, k) <= starts[k] < splits[k]
    ensures Rebuilt(columns, trace, initial, starts, splits, m, if path == [] then subs else subs + [path], k + 1)
  {
    if path != [] {
      MatchingsAppend(columns, trace, subs, path);
      assert (subs + [path])[|subs|] == path;
    }
    if k < m {
      EmittedStep(columns, subs, path, starts, splits, k);
    }
  }

  lemma {:induction false} EmittedStep(columns: Columns, subs: seq<seq<State>>, path: seq<State>, starts: seq<nat>,
                                       splits: seq<nat>, k: nat)
    requires k < |starts| && k < |splits| && AllEmitted(columns, subs, starts, splits, k)
    requires if path == [] then AllBroken(columns, starts[k] + 1, splits[k])
             else Spans(columns, path, starts[k], splits[k]) && !AllBroken(columns, starts[k] + 1, splits[k])
    ensures AllEmitted(columns, if path == [] then subs else subs + [path], starts, splits, k + 1)
  {
    if path != [] {
      var pieces, all := Pieces(columns, starts, splits, k + 1), subs + [path];
      assert pieces == Pieces(columns, starts, splits, k) + [k];
      forall j | 0 <= j < |all|
        ensures Spans(columns, all[j], starts[pieces[j]], splits[pieces[j]])
      {
        assert j < |subs| ==> all[j] == subs[j] && Spans(columns, subs[j], starts[pieces[j]], splits[pieces[j]]);
      }
    }
  }

  method RebuildAll(columns: Columns, trace: Trace, initial: nat, splits: seq<nat>, ghost starts: seq<nat>,
                    ghost m: nat)
      returns (subs: seq<seq<State>>)
    requires |columns| < UNSIGNED && initial < |columns| && Split(columns, trace, initial, starts, splits, m)
    requires forall t :: 0 <= t < |columns| ==> Coherent(columns[t], |trace.emissions[t]|)
    ensures Matchings(columns, trace, subs) && AllEmitted(columns, subs, starts, splits, m)
  {
    subs := [];
    var begin := initial;
    for k := 0 to |splits|
      invariant begin == Begin(initial, splits, k) <= |columns|
      invariant Rebuilt(columns, trace, initial, starts, splits, m, subs, k)
    {
      SplitFacts(columns, trace, initial, starts, splits, m, k);
      subs := RebuildOne(columns, trace, initial, begin, splits, starts, m, k, subs);
      begin := splits[k];
    }
  }

  method RebuildOne(columns: Columns, trace: Trace, ghost initial: nat, begin: nat, splits: seq<nat>,
                    ghost starts: seq<nat>, ghost m: nat, k: nat, subs0: seq<seq<State>>)
      returns (subs: seq<seq<State>>)
    requires |columns| < UNSIGNED && Split(columns, trace, initial, starts, splits, m) && k < |splits|
    requires begin == Begin(initial, splits, k) <= |columns|
    requires forall t :: 0 <= t < |columns| ==> Coherent(columns[t], |trace.emissions[t]|)
    requires Rebuilt(columns, trace, initial, starts, splits, m, subs0, k)
    ensures Rebuilt(columns, trace, initial, starts, splits, m, subs, k + 1)
  {
    SplitFacts(columns, trace, initial, starts, splits, m, k);
    var path := Rebuild(columns, trace, begin, splits[k], if k < m then starts[k] else 0, k < m);
    RebuiltStep(columns, trace, initial, starts, splits, m, subs0, k, path);
    subs := if path == [] then subs0 else subs0 + [path];
  }

  /** What is known about split k: it ends a segment, or it is the extra one at the end. */
  lemma {:induction false} SplitFacts(columns: Columns, trace: Trace, initial: nat, starts: seq<nat>, splits: seq<nat>,
                                      m: nat, k: nat)
    requires Split(columns, trace, initial, starts, splits, m) && k < |splits|
    ensures 0 < splits[k] <= |columns|
    ensures var begin := Begin(initial, splits, k);
            if k < m then begin <= starts[k] < splits[k] && Segment(columns, trace, starts[k], splits[k])
               && AllBroken(columns, begin, starts[k])
            else splits[k] <= begin
  {
    assert SegmentAt(columns, trace, initial, starts, splits, if k < m then k else k - 1);
  }

  /** The whole of map matching: nothing if no timestamp can start a matching, else the sub-matchings
      of the segments into which the trace falls, but for those with a single unbroken timestamp. */
  method Match(trace: Trace)
      returns (subs: seq<seq<State>>, ghost columns: Columns, ghost initial: nat, ghost starts: seq<nat>,
               ghost splits: seq<nat>, ghost m: nat)
    requires 0 < |trace.emissions| < UNSIGNED && Timed(trace)
    ensures GoodAnswer(trace, subs) && Matchings(columns, trace, subs)
    ensures m <= |starts| && m <= |splits| && AllEmitted(columns, subs, starts, splits, m)
    ensures subs == [] <==> forall k :: 0 <= k < m ==> AllBroken(columns, starts[k] + 1, splits[k])
    ensures if forall t :: 0 <= t < |trace.emissions| - 1 ==> Hopeless(trace.emissions[t]) then m == 0
            else FirstStart(trace, 0, initial) && Split(columns, trace, initial, starts, splits, m)
    ensures Fits(columns, trace) && forall k :: 0 <= k < |subs| ==> GoodSteps(columns, trace, initial, subs[k])
  {
    var model := new HiddenMarkovModel(trace.emissions);
    var found, first := model.Initialize(0);
    initial := first;
    if !found {
      return [], model.columns, 0, [], [], 0;
    }
    StartRunning(model.columns, trace, first);
    var ends;
    ends, starts, m := Viterbi(model, trace, first);
    subs := RebuildAll(model.columns, trace, first, ends, starts, m);
    columns, splits := model.columns, ends;
    AnswerIsGood(columns, trace, subs);
    EmittedSteps(columns, trace, initial, starts, splits, m, subs);
    EmptyIff(columns, subs, starts, splits, m);
  }

  lemma {:induction false} StartRunning(columns: Columns, trace: Trace, initial: nat)
    requires Fits(columns, trace) && |columns| < UNSIGNED && FirstStart(trace, 0, initial)
    requires Starts(columns[initial], initial, trace.emissions[initial])
    requires forall t :: initial < t < |columns| ==> columns[t] == Blank(|trace.emissions[t]|)
    ensures Running(columns, trace, initial, [initial], Loop(initial + 1, INVALID_STATE, [], [initial]))
  {
    StartSegment(columns, trace, initial);
  }

  // ----- a late gain loses the best path -----------------------------------------------------------

  /** Two candidates lead to the only candidate of the next timestamp; the second, with the lower emission, gains
      2 on the way. */
  function LosingTransition(p: State, q: State): Score {
    if p == State(0, 0) && q == State(1, 0) then Possible(0.0)
    else if p == State(0, 1) && q == State(1, 0) then Possible(2.0)
    else Impossible
  }

  function LosingTrace(): Trace {
    Trace([[Possible(1.0), Possible(0.0)], [Possible(0.0)]], LosingTransition, [], 0)
  }

  lemma {:induction false} LosingColumn(before: Column)
    requires Starts(before, 0, LosingTrace().emissions[0])
    ensures Relaxed(before, 0, 1, [Possible(0.0)], LosingTransition, 2) ==
              Column([Possible(1.0)], [State(0, 0)], [false], false)
  {
    var emissions := [Possible(0.0)];
    var first := Relaxed(before, 0, 1, emissions, LosingTransition, 1);
    assert Relaxed(before, 0, 1, emissions, LosingTransition, 0) == Blank(1);
    assert OfferedRow(before, 0, 1, Blank(1), emissions, LosingTransition, 0, 0) == Blank(1);
    assert first == Column([Possible(1.0)], [State(0, 0)], [false], false);
    assert OfferedRow(before, 0, 1, first, emissions, LosingTransition, 1, 0) == first;
  }

  lemma {:induction false} LosingNeverSplits(columns: Columns, split: nat)
    ensures !Ended(columns, LosingTrace(), 0, split)
  {
  }

  lemma {:induction false} LosingTable(columns: Columns)
    requires Fits(columns, LosingTrace()) && Segment(columns, LosingTrace(), 0, 2)
    ensures columns[1] == Column([Possible(1.0)], [State(0, 0)], [false], false)
  {
    assert Starts(columns[0], 0, LosingTrace().emissions[0]) by {
      assert Swept(columns, LosingTrace(), 0, 0);
    }
    assert RelaxedFrom(columns, LosingTrace(), 0, 0, 1) by {
      assert Swept(columns, LosingTrace(), 0, 1);
      assert Stack(columns, 0, 1) == [0];
    }
    LosingColumn(columns[0]);
  }

  /** The whole trace is one segment. */
  lemma {:induction false} LosingSegment(columns: Columns, starts: seq<nat>, splits: seq<nat>, m: nat)
    requires Split(columns, LosingTrace(), 0, starts, splits, m)
    ensures m == 1 && |starts| > 0 && starts[0] == 0 && splits[0] == 2
    ensures columns[1] == Column([Possible(1.0)], [State(0, 0)], [false], false)
  {
    var trace := LosingTrace();
    if m > 0 {
      assert SegmentAt(columns, trace, 0, starts, splits, 0);
      LosingNeverSplits(columns, splits[0]);
    }
    assert OutOfTrace(columns, trace, 0, starts, splits, m);
    LosingTable(columns);
    assert Stack(columns, 0, 1) == [0] && Stack(columns, 0, 2) == [0, 1];
  }

  lemma {:induction false} TwoPointScore(trace: Trace, path: seq<State>, a: real, b: real, c: real)
    requires |path| == 2 && Rival(trace, path, path) && trace.transition(path[0], path[1]) == Possible(c)
    requires trace.emissions[path[0].time][path[0].candidate] == Possible(a)
    requires trace.emissions[path[1].time][path[1].candidate] == Possible(b)
    ensures PathScore(trace, path) == Possible(a + b + c)
  {
    assert PathScore(trace, path[..1]) == Possible(a);
  }

  lemma {:induction false} LosingPath(columns: Columns, path: seq<State>)
    requires Fits(columns, LosingTrace()) && columns[1] == Column([Possible(1.0)], [State(0, 0)], [false], false)
    requires Chain(columns, path) && |path| >= 2 && Spans(columns, path, 0, 2)
    ensures path == [State(0, 0), State(1, 0)]
  {
    var k := |path| - 1;
    assert Live(columns, path[k]) && Follows(columns, path[k - 1], path[k]);
    if k > 1 {
      ChainIncreases(columns, path, 0, k - 1);
    }
  }

  lemma {:induction false} LosingPieces(columns: Columns, subs: seq<seq<State>>, starts: seq<nat>, splits: seq<nat>)
    requires |columns| == 2 && !columns[1].broken && |starts| > 0 && |splits| > 0 && starts[0] == 0 && splits[0] == 2
    requires AllEmitted(columns, subs, starts, splits, 1)
    ensures |subs| == 1 && Spans(columns, subs[0], 0, 2)
  {
    assert Pieces(columns, starts, splits, 0) == [];
    assert !AllBroken(columns, 1, 2);
    assert Pieces(columns, starts, splits, 1) == [0];
  }

  lemma {:induction false} Beaten(trace: Trace, path: seq<State>, q: seq<State>)
    requires Rival(trace, path, path) && Rival(trace, path, q) && Less(PathScore(trace, path), PathScore(trace, q))
    ensures !Optimal(trace, path)
  {
  }

  lemma {:induction false} LosingIsNotOptimal(trace: Trace, path: seq<State>, rival: seq<State>)
    requires trace == LosingTrace() && path == [State(0, 0), State(1, 0)] && rival == [State(0, 1), State(1, 0)]
    ensures !Optimal(trace, path)
  {
    TwoPointScore(trace, path, 1.0, 0.0, 0.0);
    TwoPointScore(trace, rival, 0.0, 0.0, 2.0);
    Beaten(trace, path, rival);
  }

  /** Map matching answers this trace with the less probable of the two paths. */
  method MatchLosing() returns (subs: seq<seq<State>>)
    ensures subs == [[State(0, 0), State(1, 0)]] && !Optimal(LosingTrace(), subs[0])
  {
    assert LosingTrace().emissions[0][0].Possible?;
    assert !Hopeless(LosingTrace().emissions[0]);
    ghost var columns, initial, starts, splits, m;
    subs, columns, initial, starts, splits, m := Match(LosingTrace());
    LosingSegment(columns, starts, splits, m);
    LosingPieces(columns, subs, starts, splits);
    assert GoodMatching(columns, LosingTrace(), subs[0]);
    LosingPath(columns, subs[0]);
    LosingIsNotOptimal(LosingTrace(), subs[0], [State(0, 1), State(1, 0)]);
  }
}
