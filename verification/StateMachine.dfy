/** The in-memory hysteresis machine of one backend (internal/health/state.go). */
module StateMachine {
  import opened Types
  import opened Arithmetic

  // ---------- Specification ----------

  datatype Snapshot = Snapshot(status: HealthStatus, successes: nat, failures: nat)

  const INITIAL := Snapshot(Unknown, 0, 0)

  function StatusOf(healthy: bool): HealthStatus { if healthy then Healthy else Unhealthy }

  /** The configured threshold for results of the given kind; not positive means 1. */
  function Threshold(config: HealthCheck, healthy: bool): (t: int)
    ensures t == Max(1, if healthy then config.thresholdHealthy else config.thresholdUnhealthy)
  {
    var configured := if healthy then config.thresholdHealthy else config.thresholdUnhealthy;
    if configured <= 0 then 1 else configured
  }

  function Counted(s: Snapshot, healthy: bool): Snapshot
  {
    if healthy then s.(successes := s.successes + 1, failures := 0)
    else s.(successes := 0, failures := s.failures + 1)
  }

  function Streak(s: Snapshot, healthy: bool): nat { if healthy then s.successes else s.failures }

  function Step(config: HealthCheck, s: Snapshot, healthy: bool): Snapshot
  {
    var counted := Counted(s, healthy);
    if Streak(counted, healthy) >= Threshold(config, healthy) then counted.(status := StatusOf(healthy))
    else counted
  }

  /** The snapshot after a whole history of results, oldest first. */
  function Run(config: HealthCheck, history: seq<bool>): Snapshot
  {
    if history == [] then INITIAL
    else Step(config, Run(config, history[..|history| - 1]), history[|history| - 1])
  }

  // ---------- The machine ----------

  class StateMachine {
    const config: HealthCheck
    var currentStatus: HealthStatus
    var consecutiveSuccesses: nat
    var consecutiveFailures: nat
    var lastCheck: Option<int>
    /** Every result since construction or the last reset. */
    ghost var history: seq<bool>

    function StateSnapshot(): Snapshot
      reads this
    {
      Snapshot(currentStatus, consecutiveSuccesses, consecutiveFailures)
    }

    ghost predicate Valid()
      reads this
    {
      StateSnapshot() == Run(config, history) && (lastCheck == None <==> history == [])
    }

    constructor (config: HealthCheck)
      ensures Valid() && this.config == config && history == []
    {
      this.config := config;
      currentStatus, consecutiveSuccesses, consecutiveFailures := Unknown, 0, 0;
      lastCheck := None;
      history := [];
    }

    method ProcessResult(healthy: bool, now: int) returns (status: HealthStatus)
      requires Valid()
      modifies this
      ensures Valid() && history == old(history) + [healthy]
      ensures status == currentStatus && lastCheck == Some(now)
    {
      lastCheck := Some(now);
      if healthy {
        consecutiveSuccesses := consecutiveSuccesses + 1;
        consecutiveFailures := 0;
        var threshold := config.thresholdHealthy;
        if threshold <= 0 {
          threshold := 1;
        }
        if consecutiveSuccesses >= threshold {
          if currentStatus != Healthy {
            currentStatus := Healthy;
          }
        }
      } else {
        consecutiveFailures := consecutiveFailures + 1;
        consecutiveSuccesses := 0;
        var threshold := config.thresholdUnhealthy;
        if threshold <= 0 {
          threshold := 1;
        }
        if consecutiveFailures >= threshold {
          if currentStatus != Unhealthy {
            currentStatus := Unhealthy;
          }
        }
      }
      assert (history + [healthy])[..|history|] == history;
      history := history + [healthy];
      return currentStatus;
    }

    method Reset()
      modifies this
      ensures Valid() && history == []
    {
      currentStatus := Unknown;
      consecutiveSuccesses := 0;
      consecutiveFailures := 0;
      lastCheck := None;
      history := [];
    }
  }

  // ---------- What the history says about the state ----------

  /** The t results before position n are all equal to v. */
  predicate LastAll(history: seq<bool>, n: int, v: bool, t: int)
  {
    0 <= t <= n <= |history| && forall i | n - t <= i < n :: history[i] == v
  }

  /** The length of the run of v that ends the history. */
  predicate IsTrailingRun(history: seq<bool>, v: bool, length: nat)
  {
    && LastAll(history, |history|, v, length)
    && (length < |history| ==> history[|history| - length - 1] != v)
  }

  lemma {:induction false} StreaksAreTrailingRuns(config: HealthCheck, history: seq<bool>, v: bool)
    ensures IsTrailingRun(history, v, Streak(Run(config, history), v))
  {
    if history != [] {
      StreaksAreTrailingRuns(config, history[..|history| - 1], v);
    }
  }

  /** Position n ends a run of v that is long enough, by the configured number, to decide the status. */
  predicate Decisive(config: HealthCheck, history: seq<bool>, n: int, v: bool)
  {
    LastAll(history, n, v, Max(1, if v then config.thresholdHealthy else config.thresholdUnhealthy))
  }

  /** The first n results end in a run of v that decides iff the streak counter has reached the threshold. */
  lemma DecisiveIsStreak(config: HealthCheck, history: seq<bool>, n: nat, v: bool)
    requires n <= |history|
    ensures Decisive(config, history, n, v) <==> Streak(Run(config, history[..n]), v) >= Threshold(config, v)
  {
    StreaksAreTrailingRuns(config, history[..n], v);
    assert Decisive(config, history, n, v) == Decisive(config, history[..n], n, v);
  }

  predicate Undecided(config: HealthCheck, history: seq<bool>, from: int, to: int, v: bool)
  {
    forall k | from < k <= to :: !Decisive(config, history, k, v)
  }

  predicate DecisionHolds(config: HealthCheck, history: seq<bool>, k: int, n: int, v: bool)
  {
    Decisive(config, history, k, v) && Undecided(config, history, k, n, !v)
  }

  /** v is the value of the most recent decisive run among the first n results. */
  predicate LatestDecision(config: HealthCheck, history: seq<bool>, n: int, v: bool)
  {
    exists k | 0 <= k <= n :: DecisionHolds(config, history, k, n, v)
  }

  /** Without a new decision against it, v stays the latest decision or becomes it. */
  lemma LatestDecisionStays(config: HealthCheck, history: seq<bool>, n: nat, v: bool, other: bool)
    requires 0 < n <= |history| && other == !v && !Decisive(config, history, n, other)
    ensures LatestDecision(config, history, n, v)
       <==> Decisive(config, history, n, v) || LatestDecision(config, history, n - 1, v)
  {
    if LatestDecision(config, history, n - 1, v) {
      var k :| 0 <= k <= n - 1 && DecisionHolds(config, history, k, n - 1, v);
      assert DecisionHolds(config, history, k, n, v);
    }
    if Decisive(config, history, n, v) {
      assert DecisionHolds(config, history, n, n, v);
    } else if LatestDecision(config, history, n, v) {
      var k :| 0 <= k <= n && DecisionHolds(config, history, k, n, v);
      assert DecisionHolds(config, history, k, n - 1, v);
    }
  }

  /** How the latest decision evolves when the n-th result, of value v, is added. */
  lemma LatestDecisionStep(config: HealthCheck, history: seq<bool>, n: nat, v: bool, other: bool)
    requires 0 < n <= |history| && history[n - 1] == v && other == !v
    ensures LatestDecision(config, history, n, v)
       <==> Decisive(config, history, n, v) || LatestDecision(config, history, n - 1, v)
    ensures LatestDecision(config, history, n, other)
       <==> !Decisive(config, history, n, v) && LatestDecision(config, history, n - 1, other)
  {
    assert !Decisive(config, history, n, other) by {
      assert Threshold(config, other) >= 1;
    }
    LatestDecisionStays(config, history, n, v, other);
    if Decisive(config, history, n, v) {
      assert !LatestDecision(config, history, n, other);
    } else {
      LatestDecisionStays(config, history, n, other, v);
    }
  }

  lemma {:induction false} StatusIsLatestDecision(config: HealthCheck, history: seq<bool>, n: nat, v: bool)
    requires n <= |history|
    ensures Run(config, history[..n]).status == StatusOf(v) <==> LatestDecision(config, history, n, v)
  {
    if n > 0 {
      assert history[..n][..n - 1] == history[..n - 1];
      StatusIsLatestDecision(config, history, n - 1, v);
      LatestDecisionStep(config, history, n, history[n - 1], !history[n - 1]);
      DecisiveIsStreak(config, history, n, history[n - 1]);
    }
  }

  lemma {:induction false} UnknownIsUndecided(config: HealthCheck, history: seq<bool>, n: nat)
    requires n <= |history|
    ensures Run(config, history[..n]).status == Unknown
       <==> Undecided(config, history, 0, n, true) && Undecided(config, history, 0, n, false)
  {
    if n > 0 {
      assert history[..n][..n - 1] == history[..n - 1];
      UnknownIsUndecided(config, history, n - 1);
      DecisiveIsStreak(config, history, n, history[n - 1]);
    }
  }

  /**
   * The state is a function of the history alone: the counters are its trailing runs, and the status is
   * the value of the most recent run that reached its threshold, or unknown if no run ever did.
   */
  lemma HistoryDecides(config: HealthCheck, history: seq<bool>)
    ensures
      var s, n := Run(config, history), |history|;
      && IsTrailingRun(history, true, s.successes)
      && IsTrailingRun(history, false, s.failures)
      && (s.status == Healthy <==> LatestDecision(config, history, n, true))
      && (s.status == Unhealthy <==> LatestDecision(config, history, n, false))
      && (s.status == Unknown <==> Undecided(config, history, 0, n, true) && Undecided(config, history, 0, n, false))
  {
    assert history[..|history|] == history;
    StreaksAreTrailingRuns(config, history, true);
    StreaksAreTrailingRuns(config, history, false);
    StatusIsLatestDecision(config, history, |history|, true);
    StatusIsLatestDecision(config, history, |history|, false);
    UnknownIsUndecided(config, history, |history|);
  }

  /** A status is earned: at some point as many results in a row as configured, at least one, supported it. */
  lemma {:induction false} StatusIsEarned(config: HealthCheck, history: seq<bool>)
    ensures Run(config, history).status == Healthy ==>
      exists n :: LastAll(history, n, true, Max(1, config.thresholdHealthy))
    ensures Run(config, history).status == Unhealthy ==>
      exists n :: LastAll(history, n, false, Max(1, config.thresholdUnhealthy))
  {
    HistoryDecides(config, history);
    if Run(config, history).status == Healthy {
      var k :| 0 <= k <= |history| && DecisionHolds(config, history, k, |history|, true);
      assert LastAll(history, k, true, Max(1, config.thresholdHealthy));
    } else if Run(config, history).status == Unhealthy {
      var k :| 0 <= k <= |history| && DecisionHolds(config, history, k, |history|, false);
      assert LastAll(history, k, false, Max(1, config.thresholdUnhealthy));
    }
  }

  // ---------- Hysteresis ----------

  /** How often the history moves the status to the given one. */
  function Transitions(config: HealthCheck, history: seq<bool>, to: HealthStatus): nat
  {
    if history == [] then 0 else
      var shorter := history[..|history| - 1];
      Transitions(config, shorter, to) +
      (if Run(config, history).status == to && Run(config, shorter).status != to then 1 else 0)
  }

  /** Results already collected towards the next change of status. */
  function Pending(s: Snapshot): nat
  {
    if s.successes > 0 && s.status != Healthy then s.successes
    else if s.failures > 0 && s.status != Unhealthy then s.failures
    else 0
  }

  /** Counters below their thresholds wherever the status has not followed them yet. */
  predicate Settled(config: HealthCheck, s: Snapshot)
  {
    && (s.successes == 0 || s.failures == 0)
    && (s.status != Healthy ==> s.successes < Threshold(config, true))
    && (s.status != Unhealthy ==> s.failures < Threshold(config, false))
  }

  lemma {:induction false} RunSettled(config: HealthCheck, history: seq<bool>)
    ensures Settled(config, Run(config, history))
  {
    if history != [] {
      RunSettled(config, history[..|history| - 1]);
    }
  }

  /** One step pays for its own change of status out of the pending results and one new result. */
  lemma StepIsPaidFor(config: HealthCheck, s: Snapshot, healthy: bool)
    requires Settled(config, s)
    ensures
      var next := Step(config, s, healthy);
      (if next.status != s.status then Threshold(config, healthy) else 0) + Pending(next) <= Pending(s) + 1
    ensures Step(config, s, healthy).status != s.status ==> Step(config, s, healthy).status == StatusOf(healthy)
  {
  }

  lemma {:induction false} TransitionsArePaidFor(config: HealthCheck, history: seq<bool>)
    ensures Transitions(config, history, Healthy) * Threshold(config, true)
          + Transitions(config, history, Unhealthy) * Threshold(config, false)
          + Pending(Run(config, history)) <= |history|
  {
    if history != [] {
      var shorter := history[..|history| - 1];
      TransitionsArePaidFor(config, shorter);
      RunSettled(config, shorter);
      StepIsPaidFor(config, Run(config, shorter), history[|history| - 1]);
      OneMore(Transitions(config, shorter, Healthy), Threshold(config, true));
      OneMore(Transitions(config, shorter, Unhealthy), Threshold(config, false));
    }
  }

  lemma OneMore(n: int, t: int)
    ensures (n + 1) * t == n * t + t
  {
  }

  /** Flap bound: every change of status uses up a threshold's worth of results of its own. */
  lemma {:induction false} FlapBound(config: HealthCheck, history: seq<bool>)
    ensures Transitions(config, history, Healthy) * Max(1, config.thresholdHealthy)
          + Transitions(config, history, Unhealthy) * Max(1, config.thresholdUnhealthy) <= |history|
  {
    TransitionsArePaidFor(config, history);
  }

  // ---------- The bound is tight ----------

  function Burst(v: bool, t: nat): seq<bool>
  {
    if t == 0 then [] else Burst(v, t - 1) + [v]
  }

  /** m rounds of just enough successes to become healthy and just enough failures to become unhealthy. */
  function Flapping(config: HealthCheck, m: nat): seq<bool>
  {
    if m == 0 then []
    else Flapping(config, m - 1) + Burst(true, Threshold(config, true)) + Burst(false, Threshold(config, false))
  }

  lemma {:induction false} OneMoreResult(config: HealthCheck, history: seq<bool>, v: bool, to: HealthStatus)
    ensures Run(config, history + [v]) == Step(config, Run(config, history), v)
    ensures Transitions(config, history + [v], to) == Transitions(config, history, to) +
      (if Step(config, Run(config, history), v).status == to && Run(config, history).status != to then 1 else 0)
  {
    assert (history + [v])[..|history|] == history;
  }

  function Repeat(config: HealthCheck, s: Snapshot, v: bool, t: nat): Snapshot
  {
    if t == 0 then s else Step(config, Repeat(config, s, v, t - 1), v)
  }

  function RepeatFlips(config: HealthCheck, s: Snapshot, v: bool, t: nat, to: HealthStatus): nat
  {
    if t == 0 then 0 else
      RepeatFlips(config, s, v, t - 1, to) +
      (if Repeat(config, s, v, t).status == to && Repeat(config, s, v, t - 1).status != to then 1 else 0)
  }

  /** A burst against the status flips it with its last result, if it is as long as the threshold. */
  lemma {:induction false} RepeatAgainst(config: HealthCheck, s: Snapshot, v: bool, t: nat, to: HealthStatus)
    requires t <= Threshold(config, v) && s.status != StatusOf(v) && Streak(s, v) == 0
    ensures
      var after, decided := Repeat(config, s, v, t), t == Threshold(config, v);
      && Streak(after, v) == t
      && (t > 0 ==> Streak(after, !v) == 0)
      && after.status == (if decided then StatusOf(v) else s.status)
      && RepeatFlips(config, s, v, t, to) == if decided && to == StatusOf(v) then 1 else 0
  {
    if t > 0 {
      RepeatAgainst(config, s, v, t - 1, to);
    }
  }

  lemma {:induction false} AppendSplit(history: seq<bool>, burst: seq<bool>, v: bool)
    ensures history + (burst + [v]) == (history + burst) + [v]
    ensures history + [] == history
  {
  }

  lemma {:induction false} BurstRuns(config: HealthCheck, history: seq<bool>, v: bool, t: nat)
    ensures |Burst(v, t)| == t
    ensures Run(config, history + Burst(v, t)) == Repeat(config, Run(config, history), v, t)
  {
    if t == 0 {
      AppendSplit(history, [], v);
    } else {
      BurstRuns(config, history, v, t - 1);
      OneMoreResult(config, history + Burst(v, t - 1), v, Unknown);
      AppendSplit(history, Burst(v, t - 1), v);
    }
  }

  lemma {:induction false} OneMoreOfBurst(config: HealthCheck, history: seq<bool>, v: bool, t: nat, to: HealthStatus)
    requires t > 0
    ensures
      var before, after := Repeat(config, Run(config, history), v, t - 1), Repeat(config, Run(config, history), v, t);
      Transitions(config, history + Burst(v, t), to) == Transitions(config, history + Burst(v, t - 1), to)
        + (if after.status == to && before.status != to then 1 else 0)
  {
    BurstRuns(config, history, v, t - 1);
    BurstRuns(config, history, v, t);
    OneMoreResult(config, history + Burst(v, t - 1), v, to);
    AppendSplit(history, Burst(v, t - 1), v);
  }

  lemma {:induction false} BurstRepeats(config: HealthCheck, history: seq<bool>, v: bool, t: nat, to: HealthStatus)
    ensures |Burst(v, t)| == t
    ensures Run(config, history + Burst(v, t)) == Repeat(config, Run(config, history), v, t)
    ensures Transitions(config, history + Burst(v, t), to)
         == Transitions(config, history, to) + RepeatFlips(config, Run(config, history), v, t, to)
  {
    BurstRuns(config, history, v, t);
    if t == 0 {
      AppendSplit(history, [], v);
    } else {
      BurstRepeats(config, history, v, t - 1, to);
      OneMoreOfBurst(config, history, v, t, to);
    }
  }

  lemma {:induction false} BurstFlips(config: HealthCheck, history: seq<bool>, v: bool, to: HealthStatus)
    requires Run(config, history).status != StatusOf(v) && Streak(Run(config, history), v) == 0
    ensures
      var t := Threshold(config, v);
      var longer := history + Burst(v, t);
      && |Burst(v, t)| == t
      && Run(config, longer).status == StatusOf(v) && Streak(Run(config, longer), !v) == 0
      && Transitions(config, longer, to) == Transitions(config, history, to) + (if to == StatusOf(v) then 1 else 0)
  {
    BurstRepeats(config, history, v, Threshold(config, v), to);
    RepeatAgainst(config, Run(config, history), v, Threshold(config, v), to);
  }

  lemma {:induction false} RoundFlips(config: HealthCheck, history: seq<bool>)
    requires Run(config, history).status != Healthy && Run(config, history).successes == 0
    ensures
      var after := history + Burst(true, Threshold(config, true)) + Burst(false, Threshold(config, false));
      && Run(config, after).status != Healthy && Run(config, after).successes == 0
      && |after| == |history| + (Threshold(config, true) + Threshold(config, false))
      && Transitions(config, after, Healthy) == Transitions(config, history, Healthy) + 1
      && Transitions(config, after, Unhealthy) == Transitions(config, history, Unhealthy) + 1
  {
    var up := history + Burst(true, Threshold(config, true));
    BurstFlips(config, history, true, Healthy);
    BurstFlips(config, history, true, Unhealthy);
    BurstFlips(config, up, false, Healthy);
    BurstFlips(config, up, false, Unhealthy);
  }

  lemma {:induction false} FlappingFlips(config: HealthCheck, m: nat)
    ensures
      var s := Run(config, Flapping(config, m));
      && s.status != Healthy && s.successes == 0
      && |Flapping(config, m)| == m * (Threshold(config, true) + Threshold(config, false))
      && Transitions(config, Flapping(config, m), Healthy) == m
      && Transitions(config, Flapping(config, m), Unhealthy) == m
  {
    if m > 0 {
      FlappingFlips(config, m - 1);
      RoundFlips(config, Flapping(config, m - 1));
      OneMore(m - 1, Threshold(config, true) + Threshold(config, false));
    }
  }

  /** The flap bound cannot be improved: some histories of any number of rounds meet it with equality. */
  lemma {:induction false} FlapBoundIsTight(config: HealthCheck, m: nat)
    ensures Transitions(config, Flapping(config, m), Healthy) == m ==
      Transitions(config, Flapping(config, m), Unhealthy)
    ensures Transitions(config, Flapping(config, m), Healthy) * Max(1, config.thresholdHealthy)
          + Transitions(config, Flapping(config, m), Unhealthy) * Max(1, config.thresholdUnhealthy)
         == |Flapping(config, m)|
  {
    FlappingFlips(config, m);
    Distribute(m, Threshold(config, true), Threshold(config, false));
  }

  lemma {:induction false} Distribute(m: int, a: int, b: int)
    ensures m * a + m * b == m * (a + b)
  {
  }
}
