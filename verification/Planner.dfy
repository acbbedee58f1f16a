/** The planner object of `llmbench/src/llmbench/planner/plan.py`, proved against `PlannerModel`. */
module Planner {
  import opened PlannerModel

  predicate PairLess(a: (int, real), b: (int, real)) {
    a.0 < b.0 || (a.0 == b.0 && a.1 < b.1)
  }

  /** Python's `sorted` on pairs. */
  function Sort(pairs: seq<(int, real)>): (sorted: seq<(int, real)>)
    ensures |sorted| == |pairs|
  {
    if |pairs| == 0 then [] else Insert(Sort(pairs[..|pairs| - 1]), pairs[|pairs| - 1])
  }

  function Insert(sorted: seq<(int, real)>, p: (int, real)): (longer: seq<(int, real)>)
    ensures |longer| == |sorted| + 1
  {
    if |sorted| > 0 && PairLess(p, sorted[|sorted| - 1]) then
      Insert(sorted[..|sorted| - 1], p) + [sorted[|sorted| - 1]]
    else sorted + [p]
  }

  ghost predicate Ascending(pairs: seq<(int, real)>) {
    forall i, j :: 0 <= i < j < |pairs| ==> !PairLess(pairs[j], pairs[i])
  }

  lemma {:induction false} InsertAdds(sorted: seq<(int, real)>, p: (int, real))
    ensures multiset(Insert(sorted, p)) == multiset(sorted) + multiset{p}
    decreases |sorted|
  {
    if |sorted| > 0 && PairLess(p, sorted[|sorted| - 1]) {
      var front, last := sorted[..|sorted| - 1], sorted[|sorted| - 1];
      InsertAdds(front, p);
      assert sorted == front + [last];
    }
  }

  lemma {:induction false} InsertKeepsOrder(sorted: seq<(int, real)>, p: (int, real))
    requires Ascending(sorted)
    ensures Ascending(Insert(sorted, p))
    decreases |sorted|
  {
    if |sorted| > 0 && PairLess(p, sorted[|sorted| - 1]) {
      var front, last := sorted[..|sorted| - 1], sorted[|sorted| - 1];
      InsertKeepsOrder(front, p);
      InsertAdds(front, p);
      var longer := Insert(front, p);
      forall i | 0 <= i < |longer| ensures !PairLess(last, longer[i]) {
        NotAbove(sorted, p, longer[i], longer);
      }
    } else {
      LastIsGreatest(sorted, p);
    }
  }

  lemma {:induction false} NotAbove(sorted: seq<(int, real)>, p: (int, real), q: (int, real), longer: seq<(int, real)>)
    requires |sorted| > 0 && Ascending(sorted) && PairLess(p, sorted[|sorted| - 1]) && q in longer
    requires multiset(longer) == multiset(sorted[..|sorted| - 1]) + multiset{p}
    ensures !PairLess(sorted[|sorted| - 1], q)
  {
    var front := sorted[..|sorted| - 1];
    assert q in multiset(longer);
    if q != p {
      assert q in multiset(front);
      var i :| 0 <= i < |front| && front[i] == q;
      assert sorted[i] == q;
    }
  }

  lemma {:induction false} LastIsGreatest(sorted: seq<(int, real)>, p: (int, real))
    requires Ascending(sorted) && (|sorted| > 0 ==> !PairLess(p, sorted[|sorted| - 1]))
    ensures Ascending(sorted + [p])
  {
    forall i | 0 <= i < |sorted| ensures !PairLess(p, sorted[i]) {
      assert i < |sorted| - 1 ==> !PairLess(sorted[|sorted| - 1], sorted[i]);
    }
  }

  /** Sorting puts the pairs in ascending order and neither adds nor drops any. */
  lemma {:induction false} SortSorts(pairs: seq<(int, real)>)
    ensures Ascending(Sort(pairs)) && multiset(Sort(pairs)) == multiset(pairs)
    decreases |pairs|
  {
    hide Insert, PairLess;
    if |pairs| > 0 {
      var front, last := pairs[..|pairs| - 1], pairs[|pairs| - 1];
      SortSorts(front);
      InsertKeepsOrder(Sort(front), last);
      InsertAdds(Sort(front), last);
      assert pairs == front + [last];
    }
  }

  /** Concurrency and throughput of the closed-loop results, in the order they came in. */
  function ClosedLoopPairs(completed: seq<Measurement>): seq<(int, real)> {
    if |completed| == 0 then []
    else
      var n := |completed| - 1;
      ClosedLoopPairs(completed[..n])
      + if completed[n].workload.load == ClosedLoop
        then [(completed[n].workload.concurrency, completed[n].metrics.outputTps)] else []
  }

  /** The pairs are those of the closed-loop results: level and throughput, and nothing of any other result. */
  lemma {:induction false} PairsExactly(completed: seq<Measurement>, p: (int, real))
    ensures p in ClosedLoopPairs(completed) <==> exists i ::
      0 <= i < |completed| && IsPairOf(completed[i], p)
    decreases |completed|
  {
    if |completed| > 0 {
      var n := |completed| - 1;
      var front := completed[..n];
      PairsExactly(front, p);
      assert p in ClosedLoopPairs(completed) <==> p in ClosedLoopPairs(front) || IsPairOf(completed[n], p);
      hide IsPairOf, ClosedLoopPairs;
      assert forall i :: 0 <= i < n ==> front[i] == completed[i];
    }
  }

  predicate IsPairOf(m: Measurement, p: (int, real)) {
    m.workload.load == ClosedLoop && m.workload.concurrency == p.0 && m.metrics.outputTps == p.1
  }

  /** The concurrency where throughput stops improving, if there is one. */
  method FindSaturationKnee(pairs: seq<(int, real)>) returns (knee: Option<int>)
    ensures IsKnee(pairs, knee)
  {
    if |pairs| < 3 {
      return None;
    }
    var gains: seq<(int, real)> := [];
    for i := 1 to |pairs|
      invariant |gains| == i - 1
      invariant forall j :: 0 <= j < i - 1 ==> gains[j] == (pairs[j + 1].0, Gain(pairs, j + 1))
    {
      gains := gains + [(pairs[i].0, pairs[i].1 - pairs[i - 1].1)];
    }
    var most := gains[0].1;
    ghost var at := 1;
    for i := 1 to |gains|
      invariant 0 < at <= i && most == Gain(pairs, at)
      invariant forall j :: 0 < j <= i ==> Gain(pairs, j) <= most
    {
      if gains[i].1 > most {
        most, at := gains[i].1, i + 1;
      }
    }
    assert IsMaxGain(pairs, most);
    var bar := MIN_GAIN * (if most == 0.0 then 1.0 else most);
    for i := 0 to |gains|
      invariant forall j :: 0 < j <= i ==> Gain(pairs, j) >= bar
    {
      if gains[i].1 < bar {
        assert pairs[i + 1].0 == gains[i].0 && Gain(pairs, i + 1) < bar;
        assert FirstBelow(pairs, bar, gains[i].0);
        return Some(gains[i].0);
      }
    }
    return None;
  }

  /** The step to the pair at `i` gains less than a tenth of what the step to `most` gains, or than a tenth when that
      gains nothing. */
  predicate LowStep(pairs: seq<(int, real)>, most: nat, i: nat)
    requires 0 < most < |pairs| && 0 < i < |pairs|
  {
    var top := pairs[most].1 - pairs[most - 1].1;
    10.0 * (pairs[i].1 - pairs[i - 1].1) < if top == 0.0 then 1.0 else top
  }

  ghost predicate FirstLow(pairs: seq<(int, real)>, most: nat, i: nat) {
    && 0 < most < |pairs| && 0 < i < |pairs| && LowStep(pairs, most, i)
    && forall j :: 0 < j < i ==> !LowStep(pairs, most, j)
  }

  /** The knee is the level of the first low step, measured by any step that gains most; there is none with fewer than
      three pairs or without a low step. */
  lemma {:induction false} KneeExactly(pairs: seq<(int, real)>, most: nat, knee: Option<int>)
    requires 0 < most < |pairs| && forall i :: 0 < i < |pairs| ==> Gain(pairs, i) <= Gain(pairs, most)
    ensures IsKnee(pairs, knee) <==>
      if |pairs| < 3 then knee.None?
      else if knee.None? then forall i :: 0 < i < |pairs| ==> !LowStep(pairs, most, i)
      else exists i: nat :: FirstLow(pairs, most, i) && pairs[i].0 == knee.value
  {
    assert IsMaxGain(pairs, Gain(pairs, most));
    var g := Gain(pairs, most);
    var bar := MIN_GAIN * (if g == 0.0 then 1.0 else g);
    assert forall i :: 0 < i < |pairs| ==> (Gain(pairs, i) < bar <==> LowStep(pairs, most, i));
    hide Gain, LowStep;
    assert forall h :: IsMaxGain(pairs, h) ==> h == g;
  }

  /** One list of pairs has one answer. */
  lemma {:induction false} KneeIsOne(pairs: seq<(int, real)>, a: Option<int>, b: Option<int>)
    requires IsKnee(pairs, a) && IsKnee(pairs, b)
    ensures a == b
  {
    if |pairs| >= 3 {
      var g :| IsMaxGain(pairs, g);
      var most :| 0 < most < |pairs| && Gain(pairs, most) == g;
      KneeExactly(pairs, most, a);
      KneeExactly(pairs, most, b);
      hide IsKnee, LowStep;
    }
  }

  /** The result takes the place of the one stored under its coordinate. */
  ghost predicate Overwrites(before: seq<Measurement>, after: seq<Measurement>, m: Measurement) {
    exists i :: 0 <= i < |before| && KeyOf(before[i].workload) == KeyOf(m.workload) && after == before[i := m]
  }

  /** When each coordinate has one result, that one is replaced and every other stays. */
  lemma {:induction false} OverwritesExactly(before: seq<Measurement>, after: seq<Measurement>, m: Measurement)
    requires forall i, j :: 0 <= i < j < |before| ==> KeyOf(before[i].workload) != KeyOf(before[j].workload)
    ensures Overwrites(before, after, m) <==>
      && Done(before, KeyOf(m.workload)) && |after| == |before|
      && forall i :: 0 <= i < |before| ==>
           after[i] == if KeyOf(before[i].workload) == KeyOf(m.workload) then m else before[i]
  {
    hide KeyOf;
    if i :| 0 <= i < |before| && KeyOf(before[i].workload) == KeyOf(m.workload) {
      if |after| == |before| && forall j :: 0 <= j < |before| ==>
           after[j] == if KeyOf(before[j].workload) == KeyOf(m.workload) then m else before[j] {
        assert after == before[i := m];
      }
    }
  }

  class AdaptivePlanner {
    const limits: Limits
    var plan: seq<Cell>
    var completed: seq<Measurement>

    function Value(): State
      reads this
    {
      State(plan, completed)
    }

    constructor (plan: seq<Cell>, limits: Limits)
      ensures this.plan == plan && completed == [] && this.limits == limits
    {
      this.plan := plan;
      this.limits := limits;
      completed := [];
    }

    method NextCell() returns (next: Option<Cell>)
      ensures next == NextOf(plan, completed)
    {
      for i := 0 to |plan|
        invariant forall j :: 0 <= j < i ==> Done(completed, KeyOf(plan[j]))
      {
        var done := IsDone(KeyOf(plan[i]));
        if !done {
          return Some(plan[i]);
        }
      }
      return None;
    }

    method IsDone(key: Key) returns (done: bool)
      ensures done == Done(completed, key)
    {
      for i := 0 to |completed|
        invariant forall j :: 0 <= j < i ==> KeyOf(completed[j].workload) != key
      {
        if KeyOf(completed[i].workload) == key {
          return true;
        }
      }
      return false;
    }

    /** Stores a result under its coordinate, over an earlier one if there is one. */
    method MarkDone(m: Measurement)
      modifies this`completed
      ensures Done(completed, KeyOf(m.workload)) && m in completed
      ensures DoneKeys(completed) == DoneKeys(old(completed)) + {KeyOf(m.workload)}
      ensures !Done(old(completed), KeyOf(m.workload)) ==> completed == old(completed) + [m]
      ensures Done(old(completed), KeyOf(m.workload)) ==> Overwrites(old(completed), completed, m)
    {
      var key := KeyOf(m.workload);
      ghost var before := completed;
      for i := 0 to |completed|
        invariant completed == before
        invariant forall j :: 0 <= j < i ==> KeyOf(completed[j].workload) != key
      {
        if KeyOf(completed[i].workload) == key {
          completed := completed[i := m];
          SameKeys(before, i, m);
          return;
        }
      }
      completed := completed + [m];
      OneMoreKey(before, m);
    }

    /** Adds cells around the knee and for noisy results, as far as their coordinates are new. */
    method Refine() returns (insertions: seq<Cell>, ghost knee: Option<int>)
      modifies this`plan
      ensures IsKnee(Sort(ClosedLoopPairs(completed)), knee)
      ensures insertions == Proposals(limits, completed, knee)
      ensures plan == Extended(old(Value()), insertions)
    {
      var found := FindSaturationKnee(Sort(ClosedLoopPairs(completed)));
      knee := found;
      insertions := [];
      if found.Some? {
        insertions := AroundKnee(found.value);
      }
      var extra := ForNoisyResults();
      insertions := insertions + extra;
      AddNew(insertions);
    }

    method AroundKnee(knee: int) returns (cells: seq<Cell>)
      ensures cells == KneeCells(limits, completed, Candidates(knee))
    {
      var candidates := Candidates(knee);
      assert candidates[..0] == [];
      cells := [];
      for i := 0 to |candidates|
        invariant cells == KneeCells(limits, completed, candidates[..i])
      {
        assert candidates[..i + 1][..i] == candidates[..i];
        var c := candidates[i];
        if c < 1 {
          continue;
        }
        if limits.maxConcurrency.Some? && limits.maxConcurrency.value != 0 && c > limits.maxConcurrency.value {
          continue;
        }
        var measured := IsMeasured(c);
        if measured {
          continue;
        }
        cells := cells + [KneeCell(limits, c)];
      }
      assert candidates[..|candidates|] == candidates;
    }

    method ForNoisyResults() returns (cells: seq<Cell>)
      ensures cells == ExtraCells(completed)
    {
      assert completed[..0] == [];
      cells := [];
      for i := 0 to |completed|
        invariant cells == ExtraCells(completed[..i])
      {
        assert completed[..i + 1][..i] == completed[..i];
        var m := completed[i];
        var spreads := [m.metrics.ttftCv, m.metrics.itlCv];
        for d := 0 to |spreads|
          invariant cells == ExtraCells(completed[..i])
          invariant forall e :: 0 <= e < d ==> !(HighVariance(spreads[e]) && m.workload.repetitions < 3)
        {
          if HighVariance(spreads[d]) && m.workload.repetitions < 3 {
            cells := cells + [ExtraCell(m.workload)];
            break;
          }
        }
        assert NeedsRepetition(m) <==>
          (HighVariance(spreads[0]) || HighVariance(spreads[1])) && m.workload.repetitions < 3;
      }
      assert completed[..|completed|] == completed;
    }

    method IsMeasured(concurrency: int) returns (yes: bool)
      ensures yes == Measured(completed, concurrency)
    {
      for i := 0 to |completed|
        invariant forall j :: 0 <= j < i ==>
          !(completed[j].workload.load == ClosedLoop && completed[j].workload.concurrency == concurrency)
      {
        if completed[i].workload.load == ClosedLoop && completed[i].workload.concurrency == concurrency {
          return true;
        }
      }
      return false;
    }

    method AddNew(cells: seq<Cell>)
      modifies this`plan
      ensures plan == Extended(old(Value()), cells)
    {
      ghost var s := Value();
      assert cells[..0] == [];
      for i := 0 to |cells|
        invariant plan == Extended(s, cells[..i])
      {
        assert cells[..i + 1][..i] == cells[..i];
        var done := IsDone(KeyOf(cells[i]));
        if !Planned(plan, KeyOf(cells[i])) && !done {
          plan := plan + [cells[i]];
        }
      }
      assert cells[..|cells|] == cells;
    }
  }

  /** What a refinement proposes, given the knee. */
  function Proposals(limits: Limits, completed: seq<Measurement>, knee: Option<int>): seq<Cell> {
    (if knee.Some? then KneeCells(limits, completed, Candidates(knee.value)) else []) + ExtraCells(completed)
  }

  lemma {:induction false} SameKeys(completed: seq<Measurement>, i: nat, m: Measurement)
    requires i < |completed| && KeyOf(completed[i].workload) == KeyOf(m.workload)
    ensures DoneKeys(completed[i := m]) == DoneKeys(completed)
    ensures Done(completed[i := m], KeyOf(m.workload)) && m in completed[i := m] && Done(completed, KeyOf(m.workload))
  {
    var after := completed[i := m];
    assert after[i] == m;
    forall k | k in DoneKeys(completed) ensures k in DoneKeys(after) {
      var j :| 0 <= j < |completed| && KeyOf(completed[j].workload) == k;
      assert KeyOf(after[j].workload) == k;
    }
    forall k | k in DoneKeys(after) ensures k in DoneKeys(completed) {
      var j :| 0 <= j < |after| && KeyOf(after[j].workload) == k;
      assert KeyOf(completed[j].workload) == k;
    }
  }

  lemma {:induction false} OneMoreKey(completed: seq<Measurement>, m: Measurement)
    ensures DoneKeys(completed + [m]) == DoneKeys(completed) + {KeyOf(m.workload)}
    ensures Done(completed + [m], KeyOf(m.workload)) && m in completed + [m]
  {
    var after := completed + [m];
    assert after[|completed|] == m;
    assert forall i :: 0 <= i < |completed| ==> after[i] == completed[i];
  }
}
