/** How probe results become persisted health states (internal/health/scheduler.go). */
module Scheduler {
  import opened Types
  import opened StateMachine
  import Aggregator

  const DEFAULT_THRESHOLD := 2

  datatype HealthState = HealthState(
    backendId: string,
    status: HealthStatus,
    consecutiveSuccesses: nat,
    consecutiveFailures: nat,
    lastCheckAt: Option<int>,
    lastHealthyAt: Option<int>,
    lastError: string)

  datatype CheckResult = CheckResult(backendId: string, healthy: bool, error: Option<string>)

  /** Which store calls of one handleResult fail for reasons of their own (not merely "no such row"). */
  datatype StoreFaults = StoreFaults(getState: bool, getBackend: bool, getCheck: bool, update: bool)

  // ---------- Specification ----------

  predicate Succeeded(result: CheckResult) { result.error.None? && result.healthy }

  function DetermineHealthStatus(state: HealthState, thresholdHealthy: int, thresholdUnhealthy: int): HealthStatus
  {
    if state.consecutiveSuccesses >= thresholdHealthy then Healthy
    else if state.consecutiveFailures >= thresholdUnhealthy then Unhealthy
    else Unknown
  }

  function OrDefault(configured: int): int { if configured > 0 then configured else DEFAULT_THRESHOLD }

  /** The thresholds a health check configures, as the scheduler reads them. */
  function PersistedThreshold(config: HealthCheck, healthy: bool): int
  {
    OrDefault(if healthy then config.thresholdHealthy else config.thresholdUnhealthy)
  }

  const NO_CHECK := HealthCheck(0, 0)

  /** The health check that governs a backend; NO_CHECK when any lookup on the way fails. */
  function GoverningCheck(backends: map<string, Backend>, checks: map<string, HealthCheck>,
                          id: string, faults: StoreFaults): HealthCheck
  {
    if !faults.getBackend && id in backends && !faults.getCheck && backends[id].configId in checks
    then checks[backends[id].configId]
    else NO_CHECK
  }

  function FreshState(id: string): HealthState { HealthState(id, Unknown, 0, 0, None, None, "") }

  function StateBefore(states: map<string, HealthState>, id: string, faults: StoreFaults): HealthState
  {
    if !faults.getState && id in states then states[id] else FreshState(id)
  }

  /** The state written for a result: new counters, judged afresh against the thresholds in force. */
  function StateAfter(before: HealthState, result: CheckResult, check: HealthCheck, now: int): HealthState
  {
    var ok := Succeeded(result);
    var counted := before.(
      consecutiveSuccesses := if ok then before.consecutiveSuccesses + 1 else 0,
      consecutiveFailures := if ok then 0 else before.consecutiveFailures + 1,
      lastCheckAt := Some(now),
      lastHealthyAt := if ok then Some(now) else before.lastHealthyAt,
      lastError := if result.error.Some? then result.error.value else if ok then "" else before.lastError);
    counted.(status :=
      DetermineHealthStatus(counted, PersistedThreshold(check, true), PersistedThreshold(check, false)))
  }

  // ---------- The scheduler ----------

  class Scheduler {
    var backends: map<string, Backend>
    var healthChecks: map<string, HealthCheck>
    var healthStates: map<string, HealthState>
    /** May be absent. */
    const aggregator: Aggregator.Aggregator?

    constructor (
      backends: map<string, Backend>, healthChecks: map<string, HealthCheck>, aggregator: Aggregator.Aggregator?)
      ensures this.backends == backends && this.healthChecks == healthChecks && healthStates == map[]
      ensures this.aggregator == aggregator
    {
      this.backends, this.healthChecks, healthStates := backends, healthChecks, map[];
      this.aggregator := aggregator;
    }

    /** Everything a result can change besides the health states. */
    ghost function History(): set<object>
      reads aggregator
    {
      if aggregator == null then {} else {aggregator} + aggregator.repr
    }

    /**
     * Counts the verdict in the probe history, at the time the aggregator reads, and rewrites the backend's
     * health state.
     */
    method HandleResult(result: CheckResult, faults: StoreFaults, now: int, recordedAt: int)
      requires aggregator != null ==> aggregator.Valid()
      modifies this`healthStates, History()
      ensures aggregator != null ==> aggregator.Valid() && fresh(aggregator.repr - old(aggregator.repr))
      ensures aggregator != null ==>
        aggregator.Abstract() ==
        Aggregator.Next(old(aggregator.Abstract()), Aggregator.Probe(result.backendId, Succeeded(result), recordedAt))
      ensures
        var id := result.backendId;
        var state := StateAfter(StateBefore(old(healthStates), id, faults), result,
                                GoverningCheck(backends, healthChecks, id, faults), now);
        healthStates == if !faults.update && id in backends then old(healthStates)[id := state] else old(healthStates)
    {
      if aggregator != null {
        aggregator.RecordProbe(result.backendId, result.healthy && result.error.None?, recordedAt);
      }
      UpdateState(result, faults, now);
    }

    method UpdateState(result: CheckResult, faults: StoreFaults, now: int)
      modifies this`healthStates
      ensures
        var id := result.backendId;
        var state := StateAfter(StateBefore(old(healthStates), id, faults), result,
                                GoverningCheck(backends, healthChecks, id, faults), now);
        healthStates == if !faults.update && id in backends then old(healthStates)[id := state] else old(healthStates)
    {
      var id := result.backendId;
      var state := FreshState(id);
      if !faults.getState && id in healthStates {
        state := healthStates[id];
      }
      state := state.(lastCheckAt := Some(now));
      if result.error.Some? {
        state := state.(consecutiveFailures := state.consecutiveFailures + 1, consecutiveSuccesses := 0);
        state := state.(lastError := result.error.value);
      } else if result.healthy {
        state := state.(consecutiveSuccesses := state.consecutiveSuccesses + 1, consecutiveFailures := 0);
        state := state.(lastError := "", lastHealthyAt := Some(now));
      } else {
        state := state.(consecutiveFailures := state.consecutiveFailures + 1, consecutiveSuccesses := 0);
      }
      var thresholdHealthy, thresholdUnhealthy := 2, 2;
      if !faults.getBackend && id in backends {
        var configId := backends[id].configId;
        if !faults.getCheck && configId in healthChecks {
          if healthChecks[configId].thresholdHealthy > 0 {
            thresholdHealthy := healthChecks[configId].thresholdHealthy;
          }
          if healthChecks[configId].thresholdUnhealthy > 0 {
            thresholdUnhealthy := healthChecks[configId].thresholdUnhealthy;
          }
        }
      }
      state := state.(status := DetermineHealthStatus(state, thresholdHealthy, thresholdUnhealthy));
      if !faults.update && id in backends {
        healthStates := healthStates[id := state];
      }
    }
  }

  /**
   * The state a result leaves, in terms of the tables and the result: a failed read starts from nothing, an
   * error counts as a failure, and the thresholds are the configured positive ones, or 2 where none is found.
   */
  lemma {:induction false} WrittenStateExactly(
    states: map<string, HealthState>, backends: map<string, Backend>, checks: map<string, HealthCheck>,
    result: CheckResult, faults: StoreFaults, now: int)
    ensures
      var id, success := result.backendId, result.error == None && result.healthy;
      var known := id in states && !faults.getState;
      var before, after := StateBefore(states, id, faults),
        StateAfter(StateBefore(states, id, faults), result, GoverningCheck(backends, checks, id, faults), now);
      && (known ==> before == states[id])
      && (!known ==> before == HealthState(id, Unknown, 0, 0, None, None, ""))
      && after.backendId == before.backendId && after.lastCheckAt == Some(now)
      && (success ==>
            && after.consecutiveSuccesses == before.consecutiveSuccesses + 1 && after.consecutiveFailures == 0
            && after.lastHealthyAt == Some(now) && after.lastError == "")
      && (!success ==>
            && after.consecutiveSuccesses == 0 && after.consecutiveFailures == before.consecutiveFailures + 1
            && after.lastHealthyAt == before.lastHealthyAt)
      && (result.error.Some? ==> after.lastError == result.error.value)
      && (result.error == None && !result.healthy ==> after.lastError == before.lastError)
  {
  }

  /** The threshold in force for a backend's results. */
  function InForce(backends: map<string, Backend>, checks: map<string, HealthCheck>, id: string,
                   faults: StoreFaults, healthy: bool): int
  {
    PersistedThreshold(GoverningCheck(backends, checks, id, faults), healthy)
  }

  /** It is what the check of the backend's own config says, or 2 where that is not found or not positive. */
  lemma {:induction false} InForceExactly(
    backends: map<string, Backend>, checks: map<string, HealthCheck>, id: string, faults: StoreFaults)
    ensures
      var found := id in backends && backends[id].configId in checks && !faults.getBackend && !faults.getCheck;
      && InForce(backends, checks, id, faults, true) ==
           (if found && checks[backends[id].configId].thresholdHealthy > 0
            then checks[backends[id].configId].thresholdHealthy else 2)
      && InForce(backends, checks, id, faults, false) ==
           (if found && checks[backends[id].configId].thresholdUnhealthy > 0
            then checks[backends[id].configId].thresholdUnhealthy else 2)
  {
  }

  /**
   * By it the result is judged: healthy on enough successes, else unhealthy on enough failures, else unknown.
   * With working lookups enough is what the check of the backend's config says.
   */
  lemma {:induction false} JudgedExactly(
    before: HealthState, result: CheckResult, backends: map<string, Backend>, checks: map<string, HealthCheck>,
    faults: StoreFaults, now: int)
    ensures
      var id := result.backendId;
      var after := StateAfter(before, result, GoverningCheck(backends, checks, id, faults), now);
      var enough := after.consecutiveSuccesses >= InForce(backends, checks, id, faults, true);
      && (after.status == Healthy <==> enough)
      && (after.status == Unhealthy <==>
            !enough && after.consecutiveFailures >= InForce(backends, checks, id, faults, false))
    ensures
      var id := result.backendId;
      var after := StateAfter(before, result, GoverningCheck(backends, checks, id, faults), now);
      id in backends && backends[id].configId in checks && !faults.getBackend && !faults.getCheck ==>
        var check := checks[backends[id].configId];
        check.thresholdHealthy > 0 && check.thresholdUnhealthy > 0 ==>
          && (after.status == Healthy <==> after.consecutiveSuccesses >= check.thresholdHealthy)
          && (after.status == Unhealthy <==>
                && after.consecutiveSuccesses < check.thresholdHealthy
                && after.consecutiveFailures >= check.thresholdUnhealthy)
  {
  }

  // ---------- Against the in-memory state machine ----------

  function View(state: HealthState): Snapshot
  {
    Snapshot(state.status, state.consecutiveSuccesses, state.consecutiveFailures)
  }

  /** The persisted state after a history of results that were all written, thresholds fixed. */
  function PersistedRun(check: HealthCheck, history: seq<bool>): Snapshot
  {
    if history == [] then INITIAL
    else PersistedStep(check, PersistedRun(check, history[..|history| - 1]), history[|history| - 1])
  }

  function PersistedStep(check: HealthCheck, s: Snapshot, healthy: bool): Snapshot
  {
    var counted := Counted(s, healthy);
    counted.(status :=
      if counted.successes >= PersistedThreshold(check, true) then Healthy
      else if counted.failures >= PersistedThreshold(check, false) then Unhealthy
      else Unknown)
  }

  /** HandleResult with working lookups is one PersistedStep on the result's verdict. */
  lemma StateAfterIsPersistedStep(before: HealthState, result: CheckResult, check: HealthCheck, now: int)
    ensures View(StateAfter(before, result, check, now)) == PersistedStep(check, View(before), Succeeded(result))
    ensures StateAfter(before, result, check, now).lastHealthyAt
         == if Succeeded(result) then Some(now) else before.lastHealthyAt
  {
  }

  /**
   * For every pair of configured thresholds, defaulted or not, the two machines count alike and never
   * contradict each other. The persisted status knows an answer only while the current streak is long
   * enough, and then it is the state machine's answer.
   */
  lemma {:induction false} Simulation(check: HealthCheck, history: seq<bool>)
    ensures
      var p, s := PersistedRun(check, history), Run(check, history);
      && p.successes == s.successes && p.failures == s.failures
      && (p.status == Unknown || p.status == s.status)
      && (p.status == Unknown <==>
            p.successes < PersistedThreshold(check, true) && p.failures < PersistedThreshold(check, false))
  {
    if history != [] {
      Simulation(check, history[..|history| - 1]);
      RunSettled(check, history[..|history| - 1]);
    }
  }

  /** The two machines show the same status after every history iff both thresholds are 1. */
  lemma StatusesCoincideExactly(check: HealthCheck)
    ensures (forall history :: PersistedRun(check, history).status == Run(check, history).status)
       <==> check.thresholdHealthy == 1 && check.thresholdUnhealthy == 1
  {
    if check.thresholdHealthy == 1 && check.thresholdUnhealthy == 1 {
      forall history
        ensures PersistedRun(check, history).status == Run(check, history).status
      {
        Simulation(check, history);
        StatusFollowsLastResult(check, history);
      }
    } else {
      var slow := PersistedThreshold(check, true) > 1;
      BurstCounts(check, !slow, PersistedThreshold(check, !slow));
      InterruptedStreakIsForgotten(check, Burst(!slow, PersistedThreshold(check, !slow)), slow);
    }
  }

  lemma StatusFollowsLastResult(check: HealthCheck, history: seq<bool>)
    requires check.thresholdHealthy == 1 && check.thresholdUnhealthy == 1
    ensures Run(check, history).status == PersistedRun(check, history).status
  {
    if history != [] {
      Simulation(check, history[..|history| - 1]);
    }
  }

  /**
   * Whatever the history, a decided status is lost from the persisted state by the first result against it,
   * unless one such result decides; the state machine always keeps an answer.
   */
  lemma {:induction false} InterruptedStreakIsForgotten(check: HealthCheck, history: seq<bool>, v: bool)
    requires PersistedRun(check, history).status == StatusOf(!v)
    ensures PersistedRun(check, history + [v]).status
         == if PersistedThreshold(check, v) > 1 then Unknown else StatusOf(v)
    ensures Run(check, history + [v]).status != Unknown
  {
    assert (history + [v])[..|history|] == history;
    Simulation(check, history);
  }

  lemma {:induction false} BurstCounts(check: HealthCheck, v: bool, t: nat)
    ensures Streak(PersistedRun(check, Burst(v, t)), v) == t && Streak(PersistedRun(check, Burst(v, t)), !v) == 0
    ensures t > 0 && t >= PersistedThreshold(check, v) ==> PersistedRun(check, Burst(v, t)).status == StatusOf(v)
  {
    if t > 0 {
      BurstCounts(check, v, t - 1);
      assert Burst(v, t)[..|Burst(v, t)| - 1] == Burst(v, t - 1);
    }
  }

  /**
   * A single failed probe takes a healthy backend out of the published status whenever more than one failure
   * is tolerated, configured or by default. The state machine keeps it healthy if that is configured, and
   * calls it unhealthy if it is the default.
   */
  lemma {:induction false} SingleFailureUnpublishes(check: HealthCheck, history: seq<bool>)
    requires PersistedThreshold(check, false) > 1 && PersistedRun(check, history).status == Healthy
    ensures PersistedRun(check, history + [false]).status == Unknown
    ensures Run(check, history + [false]).status == if check.thresholdUnhealthy > 1 then Healthy else Unhealthy
  {
    assert (history + [false])[..|history|] == history;
    Simulation(check, history);
    RunSettled(check, history);
  }
}
