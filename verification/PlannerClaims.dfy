/** What `llmbench/src/llmbench/planner/plan.py` and `.../cli/main.py` say of themselves, against what they do: the
    documented knee, and the concurrency cap that is not there unless asked for. */
module PlannerClaims {
  import opened PlannerModel
  import opened Planner
  import opened PlannerKnees

  // ---------------------------------------------------------------- the documented knee

  /** The first step from `i` on that gains less than `bar`. */
  function FirstLow(pairs: seq<(int, real)>, i: nat, bar: real): (at: nat)
    requires 0 < i <= |pairs|
    ensures i <= at <= |pairs| && (at < |pairs| ==> Gain(pairs, at) < bar)
    ensures forall j :: i <= j < at ==> Gain(pairs, j) >= bar
    decreases |pairs| - i
  {
    if i == |pairs| || Gain(pairs, i) < bar then i else FirstLow(pairs, i + 1, bar)
  }

  /** The first step from `i` on that gains less than a tenth of the step before it. */
  function FirstDrop(pairs: seq<(int, real)>, i: nat): (at: nat)
    requires 1 < i <= |pairs|
    ensures i <= at <= |pairs| && (at < |pairs| ==> Gain(pairs, at) < MIN_GAIN * Gain(pairs, at - 1))
    ensures forall j :: i <= j < at ==> Gain(pairs, j) >= MIN_GAIN * Gain(pairs, j - 1)
    decreases |pairs| - i
  {
    if i == |pairs| || Gain(pairs, i) < MIN_GAIN * Gain(pairs, i - 1) then i else FirstDrop(pairs, i + 1)
  }

  function LevelOf(pairs: seq<(int, real)>, at: nat): Option<int> {
    if at < |pairs| then Some(pairs[at].0) else None
  }

  /** The knee of the documentation: the first level whose gain is less than a tenth of the previous step's. */
  function DocumentedKnee(pairs: seq<(int, real)>): Option<int> {
    if |pairs| < 3 then None else LevelOf(pairs, FirstDrop(pairs, 2))
  }

  /** No step to a level below `level` gains less than `bar`, and some step to `level` does; without a level, no step
      at all does. */
  ghost predicate LowAtLevel(pairs: seq<(int, real)>, level: Option<int>, bar: real) {
    match level
    case None => forall i :: 0 < i < |pairs| ==> Gain(pairs, i) >= bar
    case Some(l) =>
      && (forall i :: 0 < i < |pairs| && pairs[i].0 < l ==> Gain(pairs, i) >= bar)
      && exists i :: 0 < i < |pairs| && pairs[i].0 == l && Gain(pairs, i) < bar
  }

  lemma {:induction false} KneeIsFirstLow(pairs: seq<(int, real)>, knee: Option<int>, most: real)
    requires |pairs| >= 3 && IsMaxGain(pairs, most) && IsKnee(pairs, knee)
    ensures knee == LevelOf(pairs, FirstLow(pairs, 1, Bar(most)))
  {
    var g :| IsMaxGain(pairs, g) && KneeBelow(pairs, Bar(g), knee);
    MaxGainIsOne(pairs, g, most);
    var at := FirstLow(pairs, 1, Bar(most));
    if knee.Some? {
      var i :| 0 < i < |pairs| && pairs[i].0 == knee.value && Gain(pairs, i) < Bar(most)
        && forall j :: 0 < j < i ==> Gain(pairs, j) >= Bar(most);
      assert at <= i;
    }
  }

  ghost predicate KneeBelow(pairs: seq<(int, real)>, bar: real, knee: Option<int>) {
    match knee
    case None => forall i :: 0 < i < |pairs| ==> Gain(pairs, i) >= bar
    case Some(c) => FirstBelow(pairs, bar, c)
  }

  /** On sorted results, the only ones the code passes, code and documentation find the same knee exactly when no step
      below the documented knee's level gains less than a tenth of the largest gain of all and some step to that level
      does; with no documented knee, exactly when no step does.  Below three results neither finds one. */
  lemma {:induction false} KneesAgreeExactly(pairs: seq<(int, real)>, knee: Option<int>)
    requires Ascending(pairs) && IsKnee(pairs, knee)
    ensures |pairs| < 3 ==> knee == DocumentedKnee(pairs)
    ensures |pairs| >= 3 ==>
      forall most :: IsMaxGain(pairs, most) ==>
        (knee == DocumentedKnee(pairs) <==> LowAtLevel(pairs, DocumentedKnee(pairs), Bar(most)))
  {
    if |pairs| >= 3 {
      forall most | IsMaxGain(pairs, most)
        ensures knee == DocumentedKnee(pairs) <==> LowAtLevel(pairs, DocumentedKnee(pairs), Bar(most))
      {
        KneeIsFirstLow(pairs, knee, most);
        hide IsKnee, IsMaxGain;
        LevelsAscend(pairs);
        var level := DocumentedKnee(pairs);
        assert level.Some? ==> exists i :: 0 < i < |pairs| && pairs[i].0 == level.value;
        FirstLowIsAt(pairs, level, Bar(most));
      }
    }
  }

  lemma {:induction false} FirstLowIsAt(pairs: seq<(int, real)>, level: Option<int>, bar: real)
    requires |pairs| > 0 && LevelsInOrder(pairs)
    requires level.Some? ==> exists i :: 0 < i < |pairs| && pairs[i].0 == level.value
    ensures LevelOf(pairs, FirstLow(pairs, 1, bar)) == level <==> LowAtLevel(pairs, level, bar)
  {
    var low := FirstLow(pairs, 1, bar);
    if low < |pairs| {
      LowIsAtItsLevel(pairs, low, bar);
      hide Gain;
      assert level == None ==> !LowAtLevel(pairs, level, bar);
      if LowAtLevel(pairs, level, bar) {
        LevelIsTheLow(pairs, low, level.value, bar);
      }
    } else {
      hide Gain;
      assert LowAtLevel(pairs, None, bar);
      assert level.Some? ==> !LowAtLevel(pairs, level, bar);
    }
  }

  lemma {:induction false} LowIsAtItsLevel(pairs: seq<(int, real)>, low: nat, bar: real)
    requires LevelsInOrder(pairs) && 0 < low < |pairs| && Gain(pairs, low) < bar
    requires forall j :: 0 < j < low ==> Gain(pairs, j) >= bar
    ensures LowAtLevel(pairs, Some(pairs[low].0), bar)
  {
    hide Gain;
    assert forall i :: low < i < |pairs| ==> pairs[low].0 <= pairs[i].0;
  }

  lemma {:induction false} LevelIsTheLow(pairs: seq<(int, real)>, low: nat, level: int, bar: real)
    requires LevelsInOrder(pairs) && 0 < low < |pairs| && Gain(pairs, low) < bar
    requires forall j :: 0 < j < low ==> Gain(pairs, j) >= bar
    requires LowAtLevel(pairs, Some(level), bar)
    ensures pairs[low].0 == level
  {
    hide Gain;
    var i :| 0 < i < |pairs| && pairs[i].0 == level && Gain(pairs, i) < bar;
    assert low <= i;
    assert low < i ==> pairs[low].0 <= pairs[i].0;
  }

  function Flattening(a: int, b: int, c: int, d: int): seq<(int, real)> {
    [(a, 0.0), (b, 100.0), (c, 150.0), (d, 159.0)]
  }

  /** Throughputs of 0, 100, 150 and 159: at whatever levels, the code finds its knee at the last, where the
      documentation has none, the last gain being more than a tenth of the one before.  At 1, 2, 4 and 8 they may be
      the first results of a heavy run; at 1 alone, where nothing scales, those of a light one. */
  lemma {:induction false} KneesCanDiffer(a: int, b: int, c: int, d: int)
    requires a <= b <= c <= d
    ensures Ascending(Flattening(a, b, c, d)) && IsKnee(Flattening(a, b, c, d), Some(d))
    ensures DocumentedKnee(Flattening(a, b, c, d)) == None
  {
    var pairs := Flattening(a, b, c, d);
    assert pairs[3].0 == d && Gain(pairs, 1) == 100.0 && Gain(pairs, 2) == 50.0 && Gain(pairs, 3) == 9.0;
    hide Flattening, Ascending;
    assert IsKnee(pairs, Some(d)) by {
      assert IsMaxGain(pairs, 100.0);
      assert FirstBelow(pairs, 10.0, d);
    }
    hide IsKnee, Gain;
    assert FirstDrop(pairs, 4) == 4;
    assert FirstDrop(pairs, 3) == 4;
  }

  // ---------------------------------------------------------------- the concurrency cap

  function AtContext(context: int, level: int, tps: real): Measurement {
    Measurement(Cell(context, 512, level, Cold, ClosedLoop, 1, None), Metrics(tps, None, None))
  }

  /** Three contexts at level `n`, the last no better than the second. */
  function Plateau(n: int): seq<Measurement> {
    [AtContext(128, n, 0.0), AtContext(512, n, 100.0), AtContext(1024, n, 100.0)]
  }

  /** A refinement can propose a level: some results, none at a higher level than `most`, make it do so. */
  ghost predicate CanPropose(limits: Limits, most: int, level: int) {
    exists completed: seq<Measurement> ::
      NoneAbove(completed, most) && ProposesAtKnee(limits, completed, level)
  }

  ghost predicate NoneAbove(completed: seq<Measurement>, most: int) {
    forall i :: 0 <= i < |completed| ==> completed[i].workload.concurrency <= most
  }

  ghost predicate ProposesAtKnee(limits: Limits, completed: seq<Measurement>, level: int) {
    exists knee :: IsKnee(Sort(ClosedLoopPairs(completed)), knee)
      && KneeCell(limits, level) in Proposals(limits, completed, knee)
  }

  /** Past what has been measured, a planner can propose the double of any level from 1 on if and only if its cap
      allows that level; the option left out, or zero, allows every level, so there is no default of sixteen. */
  lemma {:induction false} DoublesExactlyWithinCap(limits: Limits, n: int)
    requires n >= 1
    ensures CanPropose(limits, n, 2 * n) <==> CapOf(limits).None? || 2 * n <= CapOf(limits).value
  {
    if CapOf(limits).None? || 2 * n <= CapOf(limits).value {
      PlateauDoubles(limits, n);
    } else {
      forall completed: seq<Measurement>, knee: Option<int> | NoneAbove(completed, n)
        ensures KneeCell(limits, 2 * n) !in Proposals(limits, completed, knee)
      {
        NotProposed(limits, completed, knee, n);
      }
    }
  }

  lemma {:induction false} PlateauDoubles(limits: Limits, n: int)
    requires n >= 1 && WithinCap(limits, 2 * n)
    ensures CanPropose(limits, n, 2 * n)
  {
    var completed := Plateau(n);
    PlateauKnee(n);
    assert Candidates(n)[4] == 2 * n && !Measured(completed, 2 * n);
    KneeCellsHave(limits, completed, Candidates(n), 4);
    hide IsKnee;
    assert KneeCell(limits, 2 * n) in Proposals(limits, completed, Some(n));
    assert ProposesAtKnee(limits, completed, 2 * n) && NoneAbove(completed, n);
  }

  lemma {:induction false} NotProposed(limits: Limits, completed: seq<Measurement>, knee: Option<int>, n: int)
    requires n >= 1 && !WithinCap(limits, 2 * n) && NoneAbove(completed, n)
    ensures KneeCell(limits, 2 * n) !in Proposals(limits, completed, knee)
  {
    if knee.Some? {
      KneeCellsWithin(limits, completed, Candidates(knee.value), 2 * n);
    }
    ExtraCellsWithin(completed, n, KneeCell(limits, 2 * n));
  }

  lemma {:induction false} KneeCellsWithin(limits: Limits, completed: seq<Measurement>, candidates: seq<int>,
                                           level: int)
    requires !WithinCap(limits, level)
    ensures KneeCell(limits, level) !in KneeCells(limits, completed, candidates)
    decreases |candidates|
  {
    if |candidates| > 0 {
      KneeCellsWithin(limits, completed, candidates[..|candidates| - 1], level);
    }
  }

  lemma {:induction false} ExtraCellsWithin(completed: seq<Measurement>, most: int, c: Cell)
    requires NoneAbove(completed, most) && c.concurrency > most
    ensures c !in ExtraCells(completed)
    decreases |completed|
  {
    if |completed| > 0 {
      ExtraCellsWithin(completed[..|completed| - 1], most, c);
    }
  }

  lemma {:induction false} KneeCellsHave(limits: Limits, completed: seq<Measurement>, candidates: seq<int>, k: nat)
    requires k < |candidates| && Wanted(limits, completed, candidates[k])
    ensures KneeCell(limits, candidates[k]) in KneeCells(limits, completed, candidates)
    decreases |candidates|
  {
    if k < |candidates| - 1 {
      KneeCellsHave(limits, completed, candidates[..|candidates| - 1], k);
    }
  }

  lemma {:induction false} PlateauKnee(n: int)
    requires n >= 1
    ensures IsKnee(Sort(ClosedLoopPairs(Plateau(n))), Some(n))
  {
    var pairs: seq<(int, real)> := [(n, 0.0), (n, 100.0), (n, 100.0)];
    PlateauPairs(n);
    AscendingStays(pairs);
    hide Sort, ClosedLoopPairs;
    assert Gain(pairs, 1) == 100.0 && Gain(pairs, 2) == 0.0;
    assert IsMaxGain(pairs, 100.0);
    assert pairs[2].0 == n && FirstBelow(pairs, 10.0, n);
  }

  lemma {:induction false} PlateauPairs(n: int)
    ensures ClosedLoopPairs(Plateau(n)) == [(n, 0.0), (n, 100.0), (n, 100.0)]
  {
    var completed := Plateau(n);
    var one, two := completed[..1], completed[..2];
    assert completed[..2] == two && two[..1] == one && |one[..0]| == 0;
    assert ClosedLoopPairs(one) == [(n, 0.0)];
    assert ClosedLoopPairs(two) == [(n, 0.0), (n, 100.0)];
  }

  /** Sorting leaves sorted pairs alone. */
  lemma {:induction false} AscendingStays(pairs: seq<(int, real)>)
    requires Ascending(pairs)
    ensures Sort(pairs) == pairs
    decreases |pairs|
  {
    if |pairs| > 0 {
      var n := |pairs| - 1;
      AscendingStays(pairs[..n]);
      assert n > 0 ==> !PairLess(pairs[n], pairs[..n][n - 1]);
      assert Insert(pairs[..n], pairs[n]) == pairs;
    }
  }
}
