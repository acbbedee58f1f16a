/** The health hysteresis of `router/internal/health/worker.go`: the worker's step for one endpoint, and what it
    amounts to over any history of probes. */
module Health {
  import opened RegistryTable

  datatype Thresholds = Thresholds(failure: int, recovery: int)

  /** What the step reads and writes of an endpoint. */
  datatype State = State(healthy: bool, failures: int, successes: int)

  function StateOf(e: Endpoint): State
    reads e
  {
    State(e.healthy, e.failures, e.successes)
  }

  function Stepped(s: State, ok: bool, limits: Thresholds): State {
    if ok then
      var n := s.successes + 1;
      if s.healthy then State(true, 0, n)
      else if n >= limits.recovery then State(true, 0, 0)
      else State(false, 0, n)
    else
      var n := s.failures + 1;
      if !s.healthy then State(false, n, 0)
      else if n >= limits.failure then State(false, 0, 0)
      else State(true, n, 0)
  }

  /** One probe result comes in. */
  method Apply(e: Endpoint, ok: bool, limits: Thresholds)
    modifies e
    ensures StateOf(e) == Stepped(old(StateOf(e)), ok, limits) && e.healthyNow == ok
    ensures e.enabled == old(e.enabled) && e.draining == old(e.draining)
  {
    e.healthyNow := ok;
    if ok {
      e.failures := 0;
      e.successes := e.successes + 1;
      if e.healthy {
        return;
      }
      if e.successes >= limits.recovery {
        e.healthy := true;
        e.successes := 0;
      }
    } else {
      e.successes := 0;
      e.failures := e.failures + 1;
      if !e.healthy {
        return;
      }
      if e.failures >= limits.failure {
        e.healthy := false;
        e.failures := 0;
      }
    }
  }

  /** The state of an endpoint that a fresh table brought in, after these probes. */
  function After(probes: seq<bool>, limits: Thresholds): State {
    if |probes| == 0 then State(true, 0, 0)
    else Stepped(After(probes[..|probes| - 1], limits), probes[|probes| - 1], limits)
  }

  // ---------------------------------------------------------------- the history it stands for

  function AtLeastOne(n: int): nat {
    if n < 1 then 1 else n
  }

  /** The last `k` of the first `n` probes all came out as `ok`. */
  ghost predicate RunEndsAt(probes: seq<bool>, n: nat, ok: bool, k: nat) {
    k <= n <= |probes| && forall i :: n - k <= i < n ==> probes[i] == ok
  }

  /** A run long enough to matter ends at `n`. */
  ghost predicate Qualifies(probes: seq<bool>, n: nat, ok: bool, limits: Thresholds) {
    RunEndsAt(probes, n, ok, AtLeastOne(if ok then limits.recovery else limits.failure))
  }

  /** The most recent run long enough to matter was one of failures. */
  ghost predicate LastRunFailed(probes: seq<bool>, limits: Thresholds) {
    exists n :: 0 <= n <= |probes| && Qualifies(probes, n, false, limits) && NoRecoveryAfter(probes, n, limits)
  }

  ghost predicate NoRecoveryAfter(probes: seq<bool>, n: nat, limits: Thresholds) {
    forall m :: n < m <= |probes| ==> !Qualifies(probes, m, true, limits)
  }

  /** How long the run at the end of the probes is. */
  function Trailing(probes: seq<bool>, ok: bool): (k: nat)
    ensures k <= |probes| && forall i :: |probes| - k <= i < |probes| ==> probes[i] == ok
    ensures k < |probes| ==> probes[|probes| - 1 - k] != ok
  {
    if |probes| == 0 || probes[|probes| - 1] != ok then 0
    else Trailing(probes[..|probes| - 1], ok) + 1
  }

  lemma {:induction false} TrailingQualifies(probes: seq<bool>, ok: bool, limits: Thresholds)
    ensures Qualifies(probes, |probes|, ok, limits)
       <==> Trailing(probes, ok) >= AtLeastOne(if ok then limits.recovery else limits.failure)
  {
    var k := Trailing(probes, ok);
    var least := AtLeastOne(if ok then limits.recovery else limits.failure);
    if k < least <= |probes| {
      assert probes[|probes| - 1 - k] != ok;
    }
  }

  /** A run seen in a prefix is seen in the whole. */
  lemma {:induction false} QualifiesInPrefix(probes: seq<bool>, p: bool, n: nat, ok: bool, limits: Thresholds)
    requires n <= |probes|
    ensures Qualifies(probes + [p], n, ok, limits) <==> Qualifies(probes, n, ok, limits)
  {
    assert forall i :: 0 <= i < n ==> (probes + [p])[i] == probes[i];
  }

  /** One more probe changes the verdict exactly when it completes a run of the other kind. */
  lemma {:induction false} VerdictStep(probes: seq<bool>, p: bool, limits: Thresholds)
    ensures LastRunFailed(probes + [p], limits) <==>
      if Qualifies(probes + [p], |probes| + 1, false, limits) then true
      else if Qualifies(probes + [p], |probes| + 1, true, limits) then false
      else LastRunFailed(probes, limits)
  {
    var longer, n := probes + [p], |probes| + 1;
    forall m: nat | m <= |probes|
      ensures Qualifies(longer, m, false, limits) <==> Qualifies(probes, m, false, limits)
    {
      QualifiesInPrefix(probes, p, m, false, limits);
    }
    if Qualifies(longer, n, false, limits) {
      assert NoRecoveryAfter(longer, n, limits);
    } else if Qualifies(longer, n, true, limits) {
      forall m | 0 <= m <= |probes| ensures !NoRecoveryAfter(longer, m, limits) {
      }
    } else {
      forall m: nat | m <= |probes| ensures NoRecoveryAfter(longer, m, limits) <==> NoRecoveryAfter(probes, m, limits) {
        OneMoreProbe(probes, p, m, limits);
      }
    }
  }

  /** A probe that completes no run of successes leaves open whether there was a recovery. */
  lemma {:induction false} OneMoreProbe(probes: seq<bool>, p: bool, m: nat, limits: Thresholds)
    requires m <= |probes| && !Qualifies(probes + [p], |probes| + 1, true, limits)
    ensures NoRecoveryAfter(probes + [p], m, limits) <==> NoRecoveryAfter(probes, m, limits)
  {
    forall k: nat | k <= |probes|
      ensures Qualifies(probes + [p], k, true, limits) <==> Qualifies(probes, k, true, limits)
    {
      QualifiesInPrefix(probes, p, k, true, limits);
    }
  }

  /** The machine is its history: after any probes, and for any thresholds, an endpoint is unhealthy exactly when
      the most recent run of at least the recovery threshold of successes or at least the failure threshold of
      failures was one of failures; with no such run it is healthy. */
  lemma {:induction false} HealthIsItsHistory(probes: seq<bool>, limits: Thresholds)
    ensures !After(probes, limits).healthy <==> LastRunFailed(probes, limits)
    ensures After(probes, limits).healthy ==> After(probes, limits).failures == Trailing(probes, false)
    ensures !After(probes, limits).healthy ==> After(probes, limits).successes == Trailing(probes, true)
    decreases |probes|
  {
    if |probes| > 0 {
      var front, p := probes[..|probes| - 1], probes[|probes| - 1];
      assert probes == front + [p];
      HealthIsItsHistory(front, limits);
      VerdictStep(front, p, limits);
      TrailingQualifies(probes, true, limits);
      TrailingQualifies(probes, false, limits);
      NotBelowThreshold(front, limits);
    } else {
      assert !Qualifies(probes, 0, false, limits);
    }
  }

  /** While healthy the failures at the end are too few, and while unhealthy the successes are. */
  lemma {:induction false} NotBelowThreshold(probes: seq<bool>, limits: Thresholds)
    ensures After(probes, limits).healthy ==> Trailing(probes, false) < AtLeastOne(limits.failure)
    ensures !After(probes, limits).healthy ==> Trailing(probes, true) < AtLeastOne(limits.recovery)
    ensures After(probes, limits).healthy ==> After(probes, limits).failures == Trailing(probes, false)
    ensures !After(probes, limits).healthy ==> After(probes, limits).successes == Trailing(probes, true)
    decreases |probes|
  {
    if |probes| > 0 {
      NotBelowThreshold(probes[..|probes| - 1], limits);
    }
  }

  /** The probes since the endpoint last became healthy or unhealthy, or since the beginning. */
  function SinceChange(probes: seq<bool>, limits: Thresholds): seq<bool> {
    if |probes| == 0 then []
    else
      var front := probes[..|probes| - 1];
      if After(probes, limits).healthy != After(front, limits).healthy then []
      else SinceChange(front, limits) + [probes[|probes| - 1]]
  }

  /** Both counters at any time: how long the run of failures, and that of successes, is at the end of those. */
  lemma {:induction false} CountersAreTheRuns(probes: seq<bool>, limits: Thresholds)
    ensures After(probes, limits).failures == Trailing(SinceChange(probes, limits), false)
    ensures After(probes, limits).successes == Trailing(SinceChange(probes, limits), true)
    decreases |probes|
  {
    if |probes| > 0 {
      var front, p := probes[..|probes| - 1], probes[|probes| - 1];
      CountersAreTheRuns(front, limits);
      CountOneMore(After(front, limits), SinceChange(front, limits), p, limits);
      hide Stepped, Trailing;
    }
  }

  /** One probe keeps the counters at the runs since the last change. */
  lemma {:induction false} CountOneMore(s: State, since: seq<bool>, p: bool, limits: Thresholds)
    requires s.failures == Trailing(since, false) && s.successes == Trailing(since, true)
    ensures var t := Stepped(s, p, limits);
      var since' := if t.healthy != s.healthy then [] else since + [p];
      t.failures == Trailing(since', false) && t.successes == Trailing(since', true)
  {
    assert (since + [p])[..|since|] == since;
  }
}
