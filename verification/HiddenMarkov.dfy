/** The tables of the map-matching model (data_structures/hidden_markov_model.hpp): one column per
    timestamp, with a score, a back pointer and a pruned flag per candidate. */
module HiddenMarkov {

  /** A log probability; `Impossible` is minus infinity. */
  datatype Score = Impossible | Possible(value: real)

  predicate Less(a: Score, b: Score) {
    match b
    case Impossible => false
    case Possible(y) => a.Impossible? || a.value < y
  }

  function Plus(a: Score, b: Score): Score {
    if a.Possible? && b.Possible? then Possible(a.value + b.value) else Impossible
  }

  /** Candidate `candidate` of timestamp `time`. */
  datatype State = State(time: nat, candidate: nat)

  datatype Column = Column(viterbi: seq<Score>, parents: seq<State>, pruned: seq<bool>, broken: bool)

  type Columns = seq<Column>

  /** Scores, pruned flags and the breakage flag of a column tell the same story. */
  ghost predicate Coherent(c: Column, size: nat) {
    && |c.viterbi| == |c.parents| == |c.pruned| == size
    && (forall s :: 0 <= s < size ==> (c.pruned[s] <==> c.viterbi[s].Impossible?))
    && (c.broken <==> forall s :: 0 <= s < size ==> c.pruned[s])
  }

  function Blank(size: nat): (c: Column)
    ensures Coherent(c, size) && c.broken
  {
    Column(seq(size, _ => Impossible), seq(size, _ => State(0, 0)), seq(size, _ => true), true)
  }

  /** The column of a timestamp at which a matching starts. */
  ghost predicate Starts(c: Column, t: nat, emissions: seq<Score>) {
    && |c.viterbi| == |c.parents| == |c.pruned| == |emissions| && c.viterbi == emissions
    && (forall s :: 0 <= s < |emissions| ==> c.parents[s] == State(t, s) && c.pruned[s] == emissions[s].Impossible?)
    && (c.broken <==> forall s :: 0 <= s < |emissions| ==> c.pruned[s])
  }

  ghost predicate Hopeless(emissions: seq<Score>) {
    forall s :: 0 <= s < |emissions| ==> emissions[s].Impossible?
  }

  class HiddenMarkovModel {
    /** Emission probabilities of the candidates of each timestamp. */
    const emissions: seq<seq<Score>>
    var columns: Columns

    ghost predicate Valid()
      reads this
    {
      |columns| == |emissions| && forall t :: 0 <= t < |columns| ==> Coherent(columns[t], |emissions[t]|)
    }

    constructor (emissions: seq<seq<Score>>)
      ensures this.emissions == emissions && Valid()
      ensures forall t :: 0 <= t < |columns| ==> columns[t] == Blank(|emissions[t]|)
    {
      this.emissions := emissions;
      columns := seq(|emissions|, t requires 0 <= t < |emissions| => Blank(|emissions[t]|));
      new;
      Clear(0);
    }

    /** Everything before `from` is preserved. */
    method Clear(from: nat)
      requires Valid() && from <= |columns|
      modifies this`columns
      ensures Valid() && columns[..from] == old(columns[..from])
      ensures forall t :: from <= t < |columns| ==> columns[t] == Blank(|emissions[t]|)
    {
      for t := from to |columns|
        invariant Valid() && columns[..from] == old(columns[..from]) && |columns| == old(|columns|)
        invariant forall u :: from <= u < t ==> columns[u] == Blank(|emissions[u]|)
      {
        columns := columns[t := Blank(|emissions[t]|)];
      }
    }

    /** Fills one column from the emissions. */
    method StartColumn(t: nat)
      requires Valid() && t < |columns| && columns[t].broken
      modifies this`columns
      ensures Valid() && columns == old(columns)[t := columns[t]] && Starts(columns[t], t, emissions[t])
    {
      var c := columns[t];
      for s := 0 to |emissions[t]|
        invariant |c.viterbi| == |c.parents| == |c.pruned| == |emissions[t]|
        invariant forall r :: 0 <= r < s ==>
                    c.viterbi[r] == emissions[t][r] && c.parents[r] == State(t, r)
                    && c.pruned[r] == emissions[t][r].Impossible?
        invariant c.broken <==> forall r :: 0 <= r < s ==> c.pruned[r]
      {
        c := Column(c.viterbi[s := emissions[t][s]], c.parents[s := State(t, s)],
                    c.pruned[s := emissions[t][s].Impossible?],
                    c.broken && emissions[t][s].Impossible?);
      }
      columns := columns[t := c];
    }

    /** Looks for the first timestamp from `from` on that can start a matching; the last timestamp of
        the trace never does. */
    method Initialize(from: nat) returns (found: bool, start: nat)
      requires Valid() && from < |columns| && forall t :: from <= t < |columns| ==> columns[t] == Blank(|emissions[t]|)
      modifies this`columns
      ensures Valid() && |columns| == old(|columns|) && columns[..from] == old(columns[..from])
      ensures found ==> from <= start < |columns| - 1 && !Hopeless(emissions[start])
      ensures found ==> Starts(columns[start], start, emissions[start])
      ensures found ==> forall t :: from <= t < start ==> columns[t].broken && Hopeless(emissions[t])
      ensures found ==> forall t :: start < t < |columns| ==> columns[t] == Blank(|emissions[t]|)
      ensures !found ==> forall t :: from <= t < |columns| - 1 ==> Hopeless(emissions[t])
    {
      start := from;
      var more := true;
      while more
        invariant Valid() && from <= start <= |columns| == old(|columns|) && columns[..from] == old(columns[..from])
        invariant more ==> start < |columns| && forall t ::
                    from <= t < start ==> columns[t].broken && Hopeless(emissions[t])
        invariant !more ==> start > from && Starts(columns[start - 1], start - 1, emissions[start - 1])
        invariant !more ==> forall t :: from <= t < start - 1 ==> columns[t].broken && Hopeless(emissions[t])
        invariant !more ==> start == |columns| || !columns[start - 1].broken
        invariant forall t :: start <= t < |columns| ==> columns[t] == Blank(|emissions[t]|)
        decreases |columns| - start, more
      {
        StartColumn(start);
        start := start + 1;
        more := start < |columns| && columns[start - 1].broken;
      }
      found := start < |columns|;
      if found {
        start := start - 1;
      }
    }
  }

  // ----- one transition ------------------------------------------------------------

  /** The score of reaching `to` from `from`, as the recurrence defines it. */
  function Value(before: Column, emission: Score, transition: Score, s: nat): Score
    requires s < |before.viterbi|
  {
    Plus(Plus(before.viterbi[s], emission), transition)
  }

  /** Back pointers of live candidates lead to live candidates of the previous column. */
  ghost predicate PointsTo(before: Column, prev: nat, c: Column, emissions: seq<Score>) {
    && |before.pruned| == |before.viterbi| && |c.parents| == |c.pruned| == |emissions|
    && forall r :: 0 <= r < |c.pruned| && !c.pruned[r] ==>
         && c.parents[r].time == prev && c.parents[r].candidate < |before.pruned|
            && !before.pruned[c.parents[r].candidate]
         && emissions[r].Possible?
  }

  /** Each live score is the value of its back pointer. */
  ghost predicate Earned(before: Column, prev: nat, t: nat, c: Column, emissions: seq<Score>,
                         transition: (State, State) -> Score)
    requires PointsTo(before, prev, c, emissions) && |c.viterbi| == |c.pruned|
  {
    forall r :: 0 <= r < |c.pruned| && !c.pruned[r] ==>
      c.viterbi[r] == Value(before, emissions[r], transition(c.parents[r], State(t, r)), c.parents[r].candidate)
  }

  /** No live predecessor offers candidate r a better score. */
  ghost predicate NoBetter(before: Column, prev: nat, t: nat, c: Column, emissions: seq<Score>,
                           transition: (State, State) -> Score, r: nat)
    requires |before.viterbi| == |before.pruned| && r < |c.viterbi| == |emissions|
  {
    forall s :: 0 <= s < |before.viterbi| && !before.pruned[s] ==>
      !Less(c.viterbi[r], Value(before, emissions[r], transition(State(prev, s), State(t, r)), s))
  }

  ghost predicate AllBest(before: Column, prev: nat, t: nat, c: Column, emissions: seq<Score>,
                          transition: (State, State) -> Score)
    requires |before.viterbi| == |before.pruned| && |c.viterbi| == |emissions|
  {
    forall r {:trigger NoBetter(before, prev, t, c, emissions, transition, r)} :: 0 <= r < |emissions| ==>
      NoBetter(before, prev, t, c, emissions, transition, r)
  }

  /** A candidate is left pruned only if no live predecessor can reach it. */
  ghost predicate Exhausted(before: Column, prev: nat, t: nat, c: Column, emissions: seq<Score>,
                            transition: (State, State) -> Score)
    requires |c.pruned| == |emissions|
  {
    forall r, s :: 0 <= r < |c.pruned| && c.pruned[r] && 0 <= s < |before.pruned| && !before.pruned[s] ==>
      emissions[r].Impossible? || transition(State(prev, s), State(t, r)).Impossible?
  }

  ghost predicate Stepped(before: Column, prev: nat, t: nat, c: Column, emissions: seq<Score>,
                          transition: (State, State) -> Score) {
    && Coherent(c, |emissions|) && PointsTo(before, prev, c, emissions)
       && Earned(before, prev, t, c, emissions, transition)
  }

  // ----- the recurrence ----------------------------------------------------------------------

  /** A score after an offer: the offer is turned down at once if its base is worse than the score, and
      otherwise taken if it is better. */
  function OfferedScore(score: Score, base: Score, gain: Score): Score {
    if Less(base, score) || gain.Impossible? || !Less(score, Plus(base, gain)) then score else Plus(base, gain)
  }

  /** Candidate r of the new column is offered a predecessor. */
  function Offered(c: Column, r: nat, from: State, base: Score, gain: Score): (c': Column)
    requires r < |c.viterbi| == |c.parents| == |c.pruned|
    ensures |c'.viterbi| == |c'.parents| == |c'.pruned| == |c.viterbi|
    ensures c'.viterbi == c.viterbi[r := OfferedScore(c.viterbi[r], base, gain)]
  {
    if Less(base, c.viterbi[r]) || gain.Impossible? || !Less(c.viterbi[r], Plus(base, gain)) then c
    else Column(c.viterbi[r := Plus(base, gain)], c.parents[r := from], c.pruned[r := false], false)
  }

  /** Predecessor s has been offered to the first k candidates. */
  function OfferedRow(before: Column, prev: nat, t: nat, c: Column, emissions: seq<Score>,
                      transition: (State, State) -> Score, s: nat, k: nat): (c': Column)
    requires s < |before.viterbi| && k <= |emissions| == |c.viterbi| == |c.parents| == |c.pruned|
    ensures |c'.viterbi| == |c'.parents| == |c'.pruned| == |emissions|
  {
    if k == 0 then c
    else
      var r := k - 1;
      Offered(OfferedRow(before, prev, t, c, emissions, transition, s, r), r, State(prev, s),
              Plus(before.viterbi[s], emissions[r]),
              transition(State(prev, s), State(t, r)))
  }

  /** The new column after the first n predecessors. */
  function Relaxed(before: Column, prev: nat, t: nat, emissions: seq<Score>, transition: (State, State) -> Score,
                   n: nat): (c: Column)
    requires n <= |before.viterbi| == |before.pruned|
    ensures |c.viterbi| == |c.parents| == |c.pruned| == |emissions|
  {
    if n == 0 then Blank(|emissions|)
    else
      var c := Relaxed(before, prev, t, emissions, transition, n - 1);
      if before.pruned[n - 1] then c else OfferedRow(before, prev, t, c, emissions, transition, n - 1, |emissions|)
  }

  /** The score of candidate r alone, after the first n predecessors. */
  function Cell(before: Column, prev: nat, t: nat, emissions: seq<Score>, transition: (State, State) -> Score, n: nat,
                r: nat): Score
    requires n <= |before.viterbi| == |before.pruned| && r < |emissions|
  {
    if n == 0 then Impossible
    else
      var score := Cell(before, prev, t, emissions, transition, n - 1, r);
      if before.pruned[n - 1] then score
      else OfferedScore(score, Plus(before.viterbi[n - 1], emissions[r]), transition(State(prev, n - 1), State(t, r)))
  }

  lemma {:induction false} RowCell(before: Column, prev: nat, t: nat, c: Column, emissions: seq<Score>,
                                   transition: (State, State) -> Score, s: nat, k: nat, r: nat)
    requires s < |before.viterbi| && k <= |emissions| == |c.viterbi| == |c.parents| == |c.pruned| && r < |emissions|
    ensures OfferedRow(before, prev, t, c, emissions, transition, s, k).viterbi[r] ==
            if r < k then OfferedScore(c.viterbi[r], Plus(before.viterbi[s], emissions[r]),
                                       transition(State(prev, s), State(t, r)))
            else c.viterbi[r]
  {
    if k > 0 {
      RowCell(before, prev, t, c, emissions, transition, s, k - 1, r);
    }
  }

  /** Candidates do not influence each other. */
  lemma {:induction false} RelaxedCell(before: Column, prev: nat, t: nat, emissions: seq<Score>,
                                       transition: (State, State) -> Score, n: nat, r: nat)
    requires n <= |before.viterbi| == |before.pruned| && r < |emissions|
    ensures Relaxed(before, prev, t, emissions, transition, n).viterbi[r] ==
              Cell(before, prev, t, emissions, transition, n, r)
  {
    if n > 0 {
      RelaxedCell(before, prev, t, emissions, transition, n - 1, r);
      if !before.pruned[n - 1] {
        RowCell(before, prev, t, Relaxed(before, prev, t, emissions, transition, n - 1), emissions, transition, n - 1,
                |emissions|, r);
      }
    }
  }

  lemma {:induction false} OfferedSteps(before: Column, prev: nat, t: nat, c: Column, emissions: seq<Score>,
                                        transition: (State, State) -> Score, s: nat, r: nat)
    requires Coherent(before, |before.viterbi|) && s < |before.viterbi| && !before.pruned[s] && r < |emissions|
    requires Stepped(before, prev, t, c, emissions, transition)
    ensures Stepped(before, prev, t,
                    Offered(c, r, State(prev, s), Plus(before.viterbi[s], emissions[r]),
                            transition(State(prev, s), State(t, r))),
                    emissions, transition)
  {
    var c' := Offered(c, r, State(prev, s), Plus(before.viterbi[s], emissions[r]),
                      transition(State(prev, s), State(t, r)));
    if c' != c {
      assert c'.pruned[r] == false;
    }
  }

  lemma {:induction false} RowSteps(before: Column, prev: nat, t: nat, c: Column, emissions: seq<Score>,
                                    transition: (State, State) -> Score, s: nat, k: nat)
    requires Coherent(before, |before.viterbi|) && s < |before.viterbi| && !before.pruned[s] && k <= |emissions|
    requires Stepped(before, prev, t, c, emissions, transition)
    ensures Stepped(before, prev, t, OfferedRow(before, prev, t, c, emissions, transition, s, k), emissions, transition)
  {
    if k > 0 {
      var r := k - 1;
      RowSteps(before, prev, t, c, emissions, transition, s, r);
      var c' := OfferedRow(before, prev, t, c, emissions, transition, s, r);
      assert OfferedRow(before, prev, t, c, emissions, transition, s, k) ==
             Offered(c', r, State(prev, s), Plus(before.viterbi[s], emissions[r]),
                     transition(State(prev, s), State(t, r)));
      OfferedSteps(before, prev, t, c', emissions, transition, s, r);
    }
  }

  /** Every live score is earned by its back pointer. */
  lemma {:induction false} RelaxedSteps(before: Column, prev: nat, t: nat, emissions: seq<Score>,
                                        transition: (State, State) -> Score, n: nat)
    requires Coherent(before, |before.viterbi|) && n <= |before.viterbi|
    ensures Stepped(before, prev, t, Relaxed(before, prev, t, emissions, transition, n), emissions, transition)
  {
    if n > 0 {
      RelaxedSteps(before, prev, t, emissions, transition, n - 1);
      if !before.pruned[n - 1] {
        RowSteps(before, prev, t, Relaxed(before, prev, t, emissions, transition, n - 1), emissions, transition, n - 1,
                 |emissions|);
      }
    }
  }

  /** A score stays impossible only if no live predecessor so far can reach the candidate. */
  lemma {:induction false} CellExhausted(before: Column, prev: nat, t: nat, emissions: seq<Score>,
                                         transition: (State, State) -> Score, n: nat, r: nat, s: nat)
    requires Coherent(before, |before.viterbi|) && s < n <= |before.viterbi| && r < |emissions| && !before.pruned[s]
    requires Cell(before, prev, t, emissions, transition, n, r).Impossible?
    ensures emissions[r].Impossible? || transition(State(prev, s), State(t, r)).Impossible?
  {
    if s < n - 1 {
      CellExhausted(before, prev, t, emissions, transition, n - 1, r, s);
    }
  }

  lemma {:induction false} RelaxedExhausted(before: Column, prev: nat, t: nat, emissions: seq<Score>,
                                            transition: (State, State) -> Score)
    requires Coherent(before, |before.viterbi|)
    ensures Exhausted(before, prev, t, Relaxed(before, prev, t, emissions, transition, |before.viterbi|), emissions,
                      transition)
  {
    var n := |before.viterbi|;
    var c := Relaxed(before, prev, t, emissions, transition, n);
    RelaxedSteps(before, prev, t, emissions, transition, n);
    forall r, s | 0 <= r < |c.pruned| && c.pruned[r] && 0 <= s < |before.pruned| && !before.pruned[s]
      ensures emissions[r].Impossible? || transition(State(prev, s), State(t, r)).Impossible?
    {
      RelaxedCell(before, prev, t, emissions, transition, n, r);
      CellExhausted(before, prev, t, emissions, transition, n, r, s);
    }
  }

  // ----- when the early refusal loses nothing ---------------------------------------------------

  predicate CanReach(transition: (State, State) -> Score, prev: nat, t: nat, s: nat, r: nat) {
    transition(State(prev, s), State(t, r)).Possible?
  }

  /** A transition raises the score of a candidate only if no earlier predecessor can reach the candidate. */
  ghost predicate NoLateGain(transition: (State, State) -> Score, prev: nat, t: nat, n: nat, m: nat) {
    forall r: nat, s2: nat, s: nat {:trigger CanReach(transition, prev, t, s2, r),
                                    CanReach(transition, prev, t, s, r)} ::
      r < m && s2 < s < n && CanReach(transition, prev, t, s2, r) && CanReach(transition, prev, t, s, r) ==>
        transition(State(prev, s), State(t, r)).value <= 0.0
  }

  /** Some earlier predecessor can reach the candidate. */
  ghost predicate ReachedEarlier(transition: (State, State) -> Score, prev: nat, t: nat, n: nat, r: nat) {
    exists s :: 0 <= s < n && CanReach(transition, prev, t, s, r)
  }

  lemma {:induction false} CellReached(before: Column, prev: nat, t: nat, emissions: seq<Score>,
                                       transition: (State, State) -> Score, n: nat, r: nat)
    requires n <= |before.viterbi| == |before.pruned| && r < |emissions|
    requires Cell(before, prev, t, emissions, transition, n, r).Possible?
    ensures ReachedEarlier(transition, prev, t, n, r)
  {
    if CanReach(transition, prev, t, n - 1, r) {
    } else {
      CellReached(before, prev, t, emissions, transition, n - 1, r);
      var s :| 0 <= s < n - 1 && CanReach(transition, prev, t, s, r);
    }
  }

  /** No live predecessor so far has a better offer than the score. */
  lemma {:induction false} CellBest(before: Column, prev: nat, t: nat, emissions: seq<Score>,
                                    transition: (State, State) -> Score, n: nat, r: nat, s: nat)
    requires s < n <= |before.viterbi| == |before.pruned| && r < |emissions| && !before.pruned[s]
    requires NoLateGain(transition, prev, t, |before.viterbi|, |emissions|)
    ensures !Less(Cell(before, prev, t, emissions, transition, n, r),
                  Value(before, emissions[r], transition(State(prev, s), State(t, r)), s))
  {
    var score := Cell(before, prev, t, emissions, transition, n - 1, r);
    if s < n - 1 {
      CellBest(before, prev, t, emissions, transition, n - 1, r, s);
    } else if score.Possible? && CanReach(transition, prev, t, s, r) {
      CellReached(before, prev, t, emissions, transition, n - 1, r);
      var s2 :| 0 <= s2 < s && CanReach(transition, prev, t, s2, r);
      assert transition(State(prev, s), State(t, r)).value <= 0.0;
    }
  }

  lemma {:induction false} RelaxedBest(before: Column, prev: nat, t: nat, emissions: seq<Score>,
                                       transition: (State, State) -> Score)
    requires |before.viterbi| == |before.pruned| && NoLateGain(transition, prev, t, |before.viterbi|, |emissions|)
    ensures AllBest(before, prev, t, Relaxed(before, prev, t, emissions, transition, |before.viterbi|), emissions,
                    transition)
  {
    var n := |before.viterbi|;
    var c := Relaxed(before, prev, t, emissions, transition, n);
    forall r | 0 <= r < |emissions|
      ensures NoBetter(before, prev, t, c, emissions, transition, r)
    {
      RelaxedCell(before, prev, t, emissions, transition, n, r);
      forall s | 0 <= s < n && !before.pruned[s]
        ensures !Less(c.viterbi[r], Value(before, emissions[r], transition(State(prev, s), State(t, r)), s))
      {
        CellBest(before, prev, t, emissions, transition, n, r, s);
      }
    }
  }

  /** Whatever the scores of the previous column and the emissions, the new scores are the best offers. */
  ghost predicate RefusalIsSafe(transition: (State, State) -> Score, prev: nat, t: nat, n: nat, m: nat) {
    forall before, emissions {:trigger Relaxed(before, prev, t, emissions, transition, n)} ::
      Coherent(before, n) && |emissions| == m ==>
        AllBest(before, prev, t, Relaxed(before, prev, t, emissions, transition, n), emissions, transition)
  }

  /** A column with just two live candidates. */
  function TwoLive(n: nat, s2: nat, first: real, s: nat, second: real): (c: Column)
    requires s2 < s < n
    ensures Coherent(c, n)
    ensures forall i :: 0 <= i < n ==> (c.pruned[i] <==> i != s2 && i != s)
    ensures c.viterbi[s2] == Possible(first) && c.viterbi[s] == Possible(second)
  {
    Column(seq(n, _ => Impossible)[s2 := Possible(first)][s := Possible(second)], seq(n, _ => State(0, 0)),
           seq(n, _ => true)[s2 := false][s := false], false)
  }

  /** Only s2 and s are live, and s comes half of its gain short of what s2 offers before it. */
  lemma {:induction false} LosingCell(before: Column, prev: nat, t: nat, emissions: seq<Score>,
                                      transition: (State, State) -> Score, k: nat, r: nat, s2: nat, s: nat, first: real,
                                      gain: real)
    requires k <= |before.viterbi| == |before.pruned| && r < |emissions| && s2 < s < |before.viterbi| && gain > 0.0
    requires forall i :: 0 <= i < |before.pruned| ==> (before.pruned[i] <==> i != s2 && i != s)
    requires before.viterbi[s2] == Possible(0.0) && before.viterbi[s] == Possible(first - gain / 2.0)
             && emissions[r] == Possible(0.0)
    requires transition(State(prev, s2), State(t, r)) == Possible(first)
    ensures Cell(before, prev, t, emissions, transition, k, r) == if k <= s2 then Impossible else Possible(first)
  {
    if k > 0 {
      LosingCell(before, prev, t, emissions, transition, k - 1, r, s2, s, first, gain);
    }
  }

  /** A transition that gains late makes the refusal lose: a score that already has half of the gain turns
      down the better offer. */
  lemma {:induction false} LateGainLoses(transition: (State, State) -> Score, prev: nat, t: nat, n: nat, m: nat, r: nat,
                                         s2: nat, s: nat)
    requires s2 < s < n && r < m && CanReach(transition, prev, t, s2, r) && CanReach(transition, prev, t, s, r)
    requires transition(State(prev, s), State(t, r)).value > 0.0
    ensures var first, gain := transition(State(prev, s2), State(t, r)).value, transition(State(prev, s),
          State(t, r)).value;
            var before, emissions := TwoLive(n, s2, 0.0, s, first - gain / 2.0), seq(m, _ => Possible(0.0));
            !AllBest(before, prev, t, Relaxed(before, prev, t, emissions, transition, n), emissions, transition)
  {
    var first, gain := transition(State(prev, s2), State(t, r)).value, transition(State(prev, s), State(t, r)).value;
    var before, emissions := TwoLive(n, s2, 0.0, s, first - gain / 2.0), seq(m, _ => Possible(0.0));
    var c := Relaxed(before, prev, t, emissions, transition, n);
    LosingCell(before, prev, t, emissions, transition, n, r, s2, s, first, gain);
    RelaxedCell(before, prev, t, emissions, transition, n, r);
    assert Value(before, emissions[r], transition(State(prev, s), State(t, r)), s) == Possible(first + gain / 2.0);
    assert !NoBetter(before, prev, t, c, emissions, transition, r);
  }

  /** The refusal is safe if and only if no transition gains late. */
  lemma {:induction false} RefusalIsSafeIff(transition: (State, State) -> Score, prev: nat, t: nat, n: nat, m: nat)
    ensures RefusalIsSafe(transition, prev, t, n, m) <==> NoLateGain(transition, prev, t, n, m)
  {
    if NoLateGain(transition, prev, t, n, m) {
      forall before, emissions | Coherent(before, n) && |emissions| == m
        ensures AllBest(before, prev, t, Relaxed(before, prev, t, emissions, transition, n), emissions, transition)
      {
        RelaxedBest(before, prev, t, emissions, transition);
      }
    } else {
      var r: nat, s2: nat, s: nat :| r < m && s2 < s < n && CanReach(transition, prev, t, s2, r)
                                     && CanReach(transition, prev, t, s, r)
                                     && transition(State(prev, s), State(t, r)).value > 0.0;
      LateGainLoses(transition, prev, t, n, m, r, s2, s);
    }
  }

  /** A logarithm, as far as it matters here. */
  ghost predicate Logarithm(log: real -> real) {
    log(1.0) == 0.0 && forall x, y :: 0.0 < x <= y ==> log(x) <= log(y)
  }

  /** The transition score of a candidate pair whose distances on the road and in the air differ by `difference`. */
  ghost function TransitionScore(log: real -> real, beta: real, difference: real): real
    requires beta > 0.0
  {
    -log(beta) - difference / beta
  }

  /** It gains exactly when the difference is below -beta * log(beta), so never if beta is at least 1. */
  lemma {:induction false} TransitionGains(log: real -> real, beta: real, difference: real)
    requires beta > 0.0 && difference >= 0.0 && Logarithm(log)
    ensures TransitionScore(log, beta, difference) > 0.0 <==> difference < -beta * log(beta)
    ensures beta >= 1.0 ==> TransitionScore(log, beta, difference) <= 0.0
  {
    var ratio := difference / beta;
    assert difference == ratio * beta;
    if ratio < -log(beta) {
      assert ratio * beta < -log(beta) * beta;
    } else {
      assert ratio * beta >= -log(beta) * beta;
    }
    assert -log(beta) * beta == -beta * log(beta);
    if beta >= 1.0 {
      assert log(1.0) <= log(beta);
      assert ratio >= 0.0;
    }
  }

  /** With a beta of at least 1 the refusal is always safe. */
  lemma {:induction false} LargeBetaIsSafe(log: real -> real, beta: real, difference: (State, State) -> real,
                                           transition: (State, State) -> Score, prev: nat, t: nat, n: nat, m: nat)
    requires beta >= 1.0 && Logarithm(log)
    requires forall p, q :: transition(p, q).Possible? ==>
               difference(p, q) >= 0.0 && transition(p, q).value == TransitionScore(log, beta, difference(p, q))
    ensures RefusalIsSafe(transition, prev, t, n, m)
  {
    forall r: nat, s: nat | CanReach(transition, prev, t, s, r)
      ensures transition(State(prev, s), State(t, r)).value <= 0.0
    {
      TransitionGains(log, beta, difference(State(prev, s), State(t, r)));
    }
    RefusalIsSafeIff(transition, prev, t, n, m);
  }

  // ----- the loops ------------------------------------------------------------------------------

  /** The inner loop of the recurrence, over the candidates of the new column. */
  method RelaxFrom(before: Column, prev: nat, t: nat, c0: Column, emissions: seq<Score>,
                   transition: (State, State) -> Score, s: nat)
      returns (c: Column)
    requires s < |before.viterbi| && |c0.viterbi| == |c0.parents| == |c0.pruned| == |emissions|
    ensures c == OfferedRow(before, prev, t, c0, emissions, transition, s, |emissions|)
  {
    c := c0;
    for r := 0 to |emissions|
      invariant c == OfferedRow(before, prev, t, c0, emissions, transition, s, r)
    {
      var value := Plus(before.viterbi[s], emissions[r]);
      if !Less(value, c.viterbi[r]) {
        var gain := transition(State(prev, s), State(t, r));
        if gain.Possible? {
          value := Plus(value, gain);
          if Less(c.viterbi[r], value) {
            c := Column(c.viterbi[r := value], c.parents[r := State(prev, s)], c.pruned[r := false], false);
          }
        }
      }
    }
  }

  /** The transitions into column t: every live score is earned by a back pointer, and pruned candidates are
      out of reach. */
  method Relax(before: Column, prev: nat, t: nat, emissions: seq<Score>, transition: (State, State) -> Score)
      returns (c: Column)
    requires Coherent(before, |before.viterbi|)
    ensures c == Relaxed(before, prev, t, emissions, transition, |before.viterbi|)
    ensures Stepped(before, prev, t, c, emissions, transition) && Exhausted(before, prev, t, c, emissions, transition)
    ensures NoLateGain(transition, prev, t, |before.viterbi|, |emissions|) ==>
              AllBest(before, prev, t, c, emissions, transition)
  {
    c := Blank(|emissions|);
    for s := 0 to |before.viterbi|
      invariant c == Relaxed(before, prev, t, emissions, transition, s)
    {
      if !before.pruned[s] {
        c := RelaxFrom(before, prev, t, c, emissions, transition, s);
      }
    }
    RelaxedSteps(before, prev, t, emissions, transition, |before.viterbi|);
    RelaxedExhausted(before, prev, t, emissions, transition);
    if NoLateGain(transition, prev, t, |before.viterbi|, |emissions|) {
      RelaxedBest(before, prev, t, emissions, transition);
    }
  }
}
