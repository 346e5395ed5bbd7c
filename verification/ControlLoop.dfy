/**
 * The whole loop: probe results, edits of the tables and reconciliations in any order, and what the zone
 * then publishes.
 */
module ControlLoop {
  import opened Types
  import opened Sorting
  import SM = StateMachine
  import opened Scheduler
  import R = Reconciler
  import P = ReconcilerProperties
  import Failover
  import Mock = MockProvider

  // ---------- The world ----------

  /**
   * The tables, the reconciler's state, and what only the proofs see. order lists backend IDs as ListBackends
   * does; usedIds are the config IDs ever handed out. For each backend: persisted, all results persisted;
   * remembered, those since its state could last not be read; inForce, the healthy threshold at the last
   * one. marks: for each config, what its last reconciliation to write the cache left behind.
   */
  datatype World = World(
    configs: map<string, Config>,
    usedIds: set<string>,
    backends: map<string, Backend>,
    order: seq<string>,
    checks: map<string, HealthCheck>,
    states: map<string, HealthState>,
    recon: R.State,
    persisted: map<string, seq<bool>>,
    remembered: map<string, seq<bool>>,
    inForce: map<string, int>,
    marks: Marks)

  /** Whether a failed deletion was swallowed, and the TTL the config then had. */
  datatype Mark = Mark(swallowed: bool, ttl: int)

  type Marks = map<string, Mark>

  predicate Swallowed(marks: Marks, id: string) { id in marks && marks[id].swallowed }

  const START :=
    World(map[], {}, map[], [], map[], map[], R.State(map[], map[], map[], {}), map[], map[], map[], map[])

  function ListBackends(order: seq<string>, backends: map<string, Backend>, configId: string): seq<Backend>
  {
    if order == [] then [] else
      var init, last := ListBackends(order[..|order| - 1], backends, configId), order[|order| - 1];
      if last in backends && backends[last].configId == configId then init + [backends[last]] else init
  }

  function RowsOf(w: World): R.Rows
  {
    R.Rows(map id | id in w.configs :: ListBackends(w.order, w.backends, id), w.states)
  }

  datatype Event =
    | ProbeResult(result: CheckResult, storeFaults: StoreFaults, now: int)
    | PutHealthCheck(configId: string, check: HealthCheck)
    | RemoveHealthCheck(configId: string)
    | PutBackend(backend: Backend)
    | DeleteBackend(id: string)
    | CreateConfig(config: Config)
    | EditConfig(config: Config)
    | DeleteConfig(id: string)
    | SetProvider(id: string, present: bool)
    | Restart
    | Reconcile(id: string, faults: R.Faults)
    | ReconcileAll(configs: seq<Config>, faults: R.Faults)

  predicate NameFree(w: World, cfg: Config)
  {
    cfg.dnsName != "" && forall id | id in w.configs && id != cfg.id :: w.configs[id].dnsName != cfg.dnsName
  }

  /**
   * What the tables guarantee, and one thing the code counts on: fresh config IDs, the unique name column, and
   * names fixed for the life of a config. A full pass covers configs as they are listed.
   */
  predicate Possible(w: World, e: Event)
  {
    match e
    case PutBackend(b) => b.configId in w.configs
    case CreateConfig(cfg) => cfg.id !in w.usedIds && NameFree(w, cfg)
    case EditConfig(cfg) => cfg.id in w.configs && cfg.dnsName == w.configs[cfg.id].dnsName
    case ReconcileAll(configs, _) =>
      P.Separate(configs) &&
      forall i | 0 <= i < |configs| :: configs[i].id in w.configs && w.configs[configs[i].id] == configs[i]
    case _ => true
  }

  function HistoryOf(histories: map<string, seq<bool>>, id: string): seq<bool>
  {
    if id in histories then histories[id] else []
  }

  /** handleResult, with what it persists added to the histories. */
  function AfterResult(w: World, result: CheckResult, faults: StoreFaults, now: int): World
  {
    var id := result.backendId;
    if faults.update || id !in w.backends then w else
      var check := GoverningCheck(w.backends, w.checks, id, faults);
      var known := if faults.getState then [] else HistoryOf(w.remembered, id);
      w.(states := w.states[id := StateAfter(StateBefore(w.states, id, faults), result, check, now)],
         persisted := w.persisted[id := HistoryOf(w.persisted, id) + [Succeeded(result)]],
         remembered := w.remembered[id := known + [Succeeded(result)]],
         inForce := w.inForce[id := InForce(w.backends, w.checks, id, faults, true)])
  }

  function Dropped(order: seq<string>, ids: set<string>): seq<string>
  {
    if order == [] then []
    else if order[0] in ids then Dropped(order[1..], ids)
    else [order[0]] + Dropped(order[1..], ids)
  }

  /** A deleted backend takes its health state with it. */
  function WithoutBackends(w: World, ids: set<string>): World
  {
    w.(backends := w.backends - ids, order := Dropped(w.order, ids),
       states := w.states - ids, persisted := w.persisted - ids, remembered := w.remembered - ids,
       inForce := w.inForce - ids)
  }

  function BackendIdsOf(w: World, configId: string): set<string>
  {
    set id | id in w.backends && w.backends[id].configId == configId
  }

  /** Only a reconciliation that writes the cache leaves a mark. */
  function MarksAfter(marks: Marks, s: R.State, rows: R.Rows, cfg: Config, faults: R.Faults): Marks
  {
    if !P.WritesCache(s, rows, cfg, faults) then marks
    else marks[cfg.id := Mark(P.DeleteSwallowed(s, cfg, R.Desired(rows, cfg), faults), cfg.dnsTtl)]
  }

  function MarksAfterPass(marks: Marks, s: R.State, rows: R.Rows, configs: seq<Config>, faults: R.Faults): Marks
  {
    if configs == [] then marks else
      var init, last := configs[..|configs| - 1], configs[|configs| - 1];
      MarksAfter(MarksAfterPass(marks, s, rows, init, faults), R.Pass(s, rows, init, faults), rows, last, faults)
  }

  function Next(w: World, e: Event): World
  {
    match e
    case ProbeResult(result, faults, now) => AfterResult(w, result, faults, now)
    case PutHealthCheck(id, check) => w.(checks := w.checks[id := check])
    case RemoveHealthCheck(id) => w.(checks := w.checks - {id})
    case PutBackend(b) =>
      w.(backends := w.backends[b.id := b], order := if b.id in w.backends then w.order else [b.id] + w.order)
    case DeleteBackend(id) => WithoutBackends(w, {id})
    case CreateConfig(cfg) => w.(configs := w.configs[cfg.id := cfg], usedIds := w.usedIds + {cfg.id})
    case EditConfig(cfg) => w.(configs := w.configs[cfg.id := cfg])
    case DeleteConfig(id) =>
      WithoutBackends(w, BackendIdsOf(w, id)).(configs := w.configs - {id}, checks := w.checks - {id})
    case SetProvider(id, present) =>
      w.(recon := w.recon.(provided := if present then w.recon.provided + {id} else w.recon.provided - {id}))
    case Restart => w.(recon := w.recon.(cache := map[]), marks := map[])
    case Reconcile(id, faults) =>
      if id !in w.configs then w else
        w.(recon := R.Turn(w.recon, RowsOf(w), w.configs[id], faults),
           marks := MarksAfter(w.marks, w.recon, RowsOf(w), w.configs[id], faults))
    case ReconcileAll(configs, faults) =>
      w.(recon := R.Pass(w.recon, RowsOf(w), configs, faults),
         marks := MarksAfterPass(w.marks, w.recon, RowsOf(w), configs, faults))
  }

  /** The world after a run; None when an event was not possible. */
  function After(run: seq<Event>): Option<World>
  {
    if run == [] then Some(START) else
      var before, e := After(run[..|run| - 1]), run[|run| - 1];
      if before.Some? && Possible(before.value, e) then Some(Next(before.value, e)) else None
  }

  // ---------- What every reachable world satisfies ----------

  predicate TablesConsistent(w: World)
  {
    && (forall id | id in w.backends :: w.backends[id].id == id && id in w.order)
    && (forall id | id in w.configs :: w.configs[id].id == id && NameFree(w, w.configs[id]))
    && w.configs.Keys <= w.usedIds && w.recon.cache.Keys <= w.usedIds
  }

  /**
   * If the cache holds the config, it agrees with the zone iff no deletion was swallowed; a list that is not
   * empty always does, and has the TTL of that write.
   */
  predicate AgreesExactly(s: R.State, marks: Marks, cfg: Config)
  {
    cfg.id in s.cache ==>
      var ips := s.cache[cfg.id];
      && cfg.id in marks
      && (P.Publishes(s.zone, cfg.dnsName, ips) <==> !marks[cfg.id].swallowed)
      && (ips != [] ==> cfg.dnsName in s.zone && s.zone[cfg.dnsName] == Mock.MockRecord(marks[cfg.id].ttl, ips))
  }

  /** So it does for every live config. */
  predicate CacheAgrees(w: World)
  {
    forall id | id in w.configs :: AgreesExactly(w.recon, w.marks, w.configs[id])
  }

  predicate IsSuffix(recent: seq<bool>, all: seq<bool>)
  {
    |recent| <= |all| && all[|all| - |recent|..] == recent
  }

  /**
   * Counter and status tell exactly what is remembered: the trailing successes, and whether they reach the
   * threshold.
   */
  predicate StateEarned(state: HealthState, persisted: seq<bool>, remembered: seq<bool>, inForce: int)
  {
    && inForce >= 1
    && IsSuffix(remembered, persisted)
    && SM.IsTrailingRun(remembered, true, state.consecutiveSuccesses)
    && (state.status == Healthy <==> SM.LastAll(remembered, |remembered|, true, inForce))
  }

  predicate StatesEarned(w: World)
  {
    && w.states.Keys == w.persisted.Keys == w.remembered.Keys == w.inForce.Keys
    && forall id | id in w.states :: StateEarned(w.states[id], w.persisted[id], w.remembered[id], w.inForce[id])
  }

  /** A persisted success extends the streak by one; a failure, or a state that could not be read, restarts it. */
  lemma {:induction false} ResultIsEarned(
    before: HealthState, persisted: seq<bool>, known: seq<bool>, result: CheckResult, check: HealthCheck, now: int)
    requires SM.IsTrailingRun(known, true, before.consecutiveSuccesses) && IsSuffix(known, persisted)
    ensures StateEarned(StateAfter(before, result, check, now), persisted + [Succeeded(result)],
                        known + [Succeeded(result)], PersistedThreshold(check, true))
  {
    var longer := known + [Succeeded(result)];
    TrailingRunExtended(known, before.consecutiveSuccesses, Succeeded(result));
    TrailingRunDecides(longer, StateAfter(before, result, check, now).consecutiveSuccesses,
      PersistedThreshold(check, true));
  }

  lemma {:induction false} TrailingRunExtended(known: seq<bool>, length: nat, v: bool)
    requires SM.IsTrailingRun(known, true, length)
    ensures SM.IsTrailingRun(known + [v], true, if v then length + 1 else 0)
  {
  }

  lemma {:induction false} TrailingRunDecides(known: seq<bool>, length: nat, t: nat)
    requires SM.IsTrailingRun(known, true, length)
    ensures SM.LastAll(known, |known|, true, t) <==> t <= length
  {
  }

  lemma {:induction false} OneStateEarned(
    w: World, id: string, state: HealthState, all: seq<bool>, recent: seq<bool>, t: int)
    requires StatesEarned(w) && StateEarned(state, all, recent, t)
    ensures StatesEarned(w.(states := w.states[id := state], persisted := w.persisted[id := all],
                            remembered := w.remembered[id := recent], inForce := w.inForce[id := t]))
  {
  }

  lemma {:induction false} ResultKeepsStatesEarned(w: World, result: CheckResult, faults: StoreFaults, now: int)
    requires StatesEarned(w)
    ensures StatesEarned(AfterResult(w, result, faults, now))
  {
    var id, v := result.backendId, Succeeded(result);
    if !faults.update && id in w.backends {
      var check := GoverningCheck(w.backends, w.checks, id, faults);
      var before, all := StateBefore(w.states, id, faults), HistoryOf(w.persisted, id);
      var known := if faults.getState then [] else HistoryOf(w.remembered, id);
      ResultIsEarned(before, all, known, result, check, now);
      OneStateEarned(w, id, StateAfter(before, result, check, now), all + [v], known + [v],
                     InForce(w.backends, w.checks, id, faults, true));
    }
  }

  /** What a result adds to the histories: its verdict, and the threshold its backend's own check configures. */
  lemma {:induction false} RecordedExactly(w: World, result: CheckResult, faults: StoreFaults, now: int)
    ensures
      var id, after := result.backendId, AfterResult(w, result, faults, now);
      if faults.update || id !in w.backends then after == w
      else
        && after.persisted == w.persisted[id := HistoryOf(w.persisted, id) + [result.error == None && result.healthy]]
        && after.inForce.Keys == w.inForce.Keys + {id}
        && (forall other | other in w.inForce && other != id :: after.inForce[other] == w.inForce[other])
        && after.inForce[id] ==
             if w.backends[id].configId in w.checks && !faults.getBackend && !faults.getCheck
               && w.checks[w.backends[id].configId].thresholdHealthy > 0
             then w.checks[w.backends[id].configId].thresholdHealthy else 2
  {
    InForceExactly(w.backends, w.checks, result.backendId, faults);
  }

  lemma {:induction false} OwnTurnAgrees(s: R.State, marks: Marks, rows: R.Rows, cfg: Config, faults: R.Faults)
    requires AgreesExactly(s, marks, cfg)
    ensures AgreesExactly(R.Turn(s, rows, cfg, faults), MarksAfter(marks, s, rows, cfg, faults), cfg)
  {
    if P.WritesCache(s, rows, cfg, faults) {
      P.WriteExactly(s, rows, cfg, faults);
    } else {
      P.NoWriteNoChange(s, rows, cfg, faults);
    }
  }

  lemma {:induction false} OtherTurnAgrees(
    s: R.State, marks: Marks, rows: R.Rows, cfg: Config, faults: R.Faults, other: Config)
    requires AgreesExactly(s, marks, other) && other.id != cfg.id && other.dnsName != cfg.dnsName
    ensures AgreesExactly(R.Turn(s, rows, cfg, faults), MarksAfter(marks, s, rows, cfg, faults), other)
  {
    P.TurnLeavesOthers(s, rows, cfg, faults, other.id, other.dnsName);
    SameSlotAgrees(s, R.Turn(s, rows, cfg, faults), marks, other);
  }

  lemma {:induction false} SameSlotAgrees(s: R.State, t: R.State, marks: Marks, cfg: Config)
    requires P.Lookup(s.cache, cfg.id) == P.Lookup(t.cache, cfg.id)
    requires P.Lookup(s.zone, cfg.dnsName) == P.Lookup(t.zone, cfg.dnsName)
    ensures AgreesExactly(s, marks, cfg) <==> AgreesExactly(t, marks, cfg)
  {
    assert cfg.id in s.cache <==> P.Lookup(s.cache, cfg.id).Some?;
    assert cfg.id in t.cache <==> P.Lookup(t.cache, cfg.id).Some?;
    assert cfg.dnsName in s.zone <==> P.Lookup(s.zone, cfg.dnsName).Some?;
    assert cfg.dnsName in t.zone <==> P.Lookup(t.zone, cfg.dnsName).Some?;
  }

  /** One turn keeps the agreement exact for the reconciled config and, names being distinct, for all others. */
  lemma {:induction false} TurnAgrees(
    s: R.State, marks: Marks, rows: R.Rows, cfg: Config, faults: R.Faults, configs: map<string, Config>)
    requires forall id | id in configs :: AgreesExactly(s, marks, configs[id]) && configs[id].id == id
    requires cfg.id in configs && configs[cfg.id] == cfg
    requires forall id | id in configs && id != cfg.id :: configs[id].dnsName != cfg.dnsName
    ensures forall id | id in configs ::
      AgreesExactly(R.Turn(s, rows, cfg, faults), MarksAfter(marks, s, rows, cfg, faults), configs[id])
  {
    forall id | id in configs
      ensures AgreesExactly(R.Turn(s, rows, cfg, faults), MarksAfter(marks, s, rows, cfg, faults), configs[id])
    {
      if id == cfg.id {
        OwnTurnAgrees(s, marks, rows, cfg, faults);
      } else {
        OtherTurnAgrees(s, marks, rows, cfg, faults, configs[id]);
      }
    }
  }

  lemma {:induction false} TurnCachesNothingElse(s: R.State, rows: R.Rows, cfg: Config, faults: R.Faults)
    ensures R.Turn(s, rows, cfg, faults).cache.Keys <= s.cache.Keys + {cfg.id}
  {
  }

  lemma {:induction false} PassAgrees(w: World, configs: seq<Config>, faults: R.Faults)
    requires TablesConsistent(w) && CacheAgrees(w) && Possible(w, ReconcileAll(configs, faults))
    ensures
      var after := R.Pass(w.recon, RowsOf(w), configs, faults);
      && after.cache.Keys <= w.usedIds
      && forall id | id in w.configs ::
           AgreesExactly(after, MarksAfterPass(w.marks, w.recon, RowsOf(w), configs, faults), w.configs[id])
  {
    if configs != [] {
      var init, last := configs[..|configs| - 1], configs[|configs| - 1];
      assert last.id in w.configs && w.configs[last.id] == last;
      PassAgrees(w, init, faults);
      var before := R.Pass(w.recon, RowsOf(w), init, faults);
      var marks := MarksAfterPass(w.marks, w.recon, RowsOf(w), init, faults);
      TurnCachesNothingElse(before, RowsOf(w), last, faults);
      TurnAgrees(before, marks, RowsOf(w), last, faults, w.configs);
    }
  }

  lemma {:induction false} InDropped(order: seq<string>, ids: set<string>, id: string)
    ensures id in Dropped(order, ids) <==> id in order && id !in ids
  {
    if order != [] {
      InDropped(order[1..], ids, id);
    }
  }

  lemma RemovalKeepsTables(w: World, ids: set<string>)
    requires TablesConsistent(w)
    ensures TablesConsistent(WithoutBackends(w, ids))
  {
    forall id | id in w.backends - ids
      ensures id in Dropped(w.order, ids)
    {
      InDropped(w.order, ids, id);
    }
  }

  lemma {:induction false} ReconcileKeepsTables(w: World, id: string, faults: R.Faults)
    requires TablesConsistent(w) && CacheAgrees(w) && id in w.configs
    ensures TablesConsistent(Next(w, Reconcile(id, faults))) && CacheAgrees(Next(w, Reconcile(id, faults)))
  {
    TurnCachesNothingElse(w.recon, RowsOf(w), w.configs[id], faults);
    TurnAgrees(w.recon, w.marks, RowsOf(w), w.configs[id], faults, w.configs);
  }

  lemma {:induction false} DeleteKeepsTables(w: World, e: Event)
    requires TablesConsistent(w) && CacheAgrees(w) && (e.DeleteBackend? || e.DeleteConfig?)
    ensures TablesConsistent(Next(w, e)) && CacheAgrees(Next(w, e))
  {
    RemovalKeepsTables(w, if e.DeleteBackend? then {e.id} else BackendIdsOf(w, e.id));
  }

  lemma {:induction false} NewConfigKeepsTables(w: World, cfg: Config)
    requires TablesConsistent(w) && CacheAgrees(w) && Possible(w, CreateConfig(cfg))
    ensures TablesConsistent(Next(w, CreateConfig(cfg))) && CacheAgrees(Next(w, CreateConfig(cfg)))
  {
  }

  lemma {:induction false} EditedConfigKeepsTables(w: World, cfg: Config)
    requires TablesConsistent(w) && CacheAgrees(w) && Possible(w, EditConfig(cfg))
    ensures TablesConsistent(Next(w, EditConfig(cfg))) && CacheAgrees(Next(w, EditConfig(cfg)))
  {
    assert w.configs[cfg.id].id == cfg.id && NameFree(w, w.configs[cfg.id]);
  }

  lemma {:induction false} OtherEditKeepsTables(w: World, e: Event)
    requires TablesConsistent(w) && CacheAgrees(w) && Possible(w, e)
    requires
      e.ProbeResult? || e.PutHealthCheck? || e.RemoveHealthCheck? || e.PutBackend? || e.SetProvider? || e.Restart?
    ensures TablesConsistent(Next(w, e)) && CacheAgrees(Next(w, e))
  {
  }

  lemma {:induction false} StepKeepsTables(w: World, e: Event)
    requires TablesConsistent(w) && CacheAgrees(w) && Possible(w, e)
    ensures TablesConsistent(Next(w, e)) && CacheAgrees(Next(w, e))
  {
    match e
    case Reconcile(id, faults) =>
      if id in w.configs {
        ReconcileKeepsTables(w, id, faults);
      }
    case ReconcileAll(configs, faults) => PassAgrees(w, configs, faults);
    case DeleteBackend(_) => DeleteKeepsTables(w, e);
    case DeleteConfig(_) => DeleteKeepsTables(w, e);
    case CreateConfig(cfg) => NewConfigKeepsTables(w, cfg);
    case EditConfig(cfg) => EditedConfigKeepsTables(w, cfg);
    case _ => OtherEditKeepsTables(w, e);
  }

  lemma {:induction false} RemovalKeepsStatesEarned(w: World, ids: set<string>)
    requires StatesEarned(w)
    ensures StatesEarned(WithoutBackends(w, ids))
  {
  }

  /** Nothing else touches health states and their histories. */
  lemma {:induction false} OtherEventsLeaveStates(w: World, e: Event)
    requires !e.ProbeResult? && !e.DeleteBackend? && !e.DeleteConfig?
    ensures
      var after := Next(w, e);
      && after.states == w.states && after.persisted == w.persisted
      && after.remembered == w.remembered && after.inForce == w.inForce
  {
  }

  lemma {:induction false} StepKeepsStatesEarned(w: World, e: Event)
    requires StatesEarned(w)
    ensures StatesEarned(Next(w, e))
  {
    if e.ProbeResult? {
      ResultKeepsStatesEarned(w, e.result, e.storeFaults, e.now);
    } else if e.DeleteBackend? {
      RemovalKeepsStatesEarned(w, {e.id});
    } else if e.DeleteConfig? {
      RemovalKeepsStatesEarned(w, BackendIdsOf(w, e.id));
    } else {
      OtherEventsLeaveStates(w, e);
    }
  }

  /**
   * Over every run, deletions failing or not, the tables stay consistent, a cached list is what the zone
   * publishes iff no deletion was swallowed, and health states tell exactly what is remembered.
   */
  lemma {:induction false} RunKeepsInvariants(run: seq<Event>)
    requires After(run).Some?
    ensures TablesConsistent(After(run).value) && CacheAgrees(After(run).value) && StatesEarned(After(run).value)
  {
    if run != [] {
      var before, e := run[..|run| - 1], run[|run| - 1];
      RunKeepsInvariants(before);
      StepKeepsTables(After(before).value, e);
      StepKeepsStatesEarned(After(before).value, e);
    }
  }

  // ---------- What the zone publishes ----------

  lemma {:induction false} InAddresses(backends: seq<Backend>, ip: string)
    ensures ip in R.Addresses(backends) <==> ip != "" && exists b | b in backends :: b.ip == ip
  {
    if backends != [] {
      var init, last := backends[..|backends| - 1], backends[|backends| - 1];
      InAddresses(init, ip);
      assert backends == init + [last];
    }
  }

  lemma {:induction false} InHealthy(backends: seq<Backend>, states: map<string, HealthState>, b: Backend)
    ensures b in R.HealthyOf(backends, states) <==> b in backends && R.Serving(states, b)
  {
    if backends != [] {
      var init, last := backends[..|backends| - 1], backends[|backends| - 1];
      InHealthy(init, states, b);
      assert backends == init + [last];
    }
  }

  lemma {:induction false} InListing(order: seq<string>, backends: map<string, Backend>, configId: string, b: Backend)
    requires forall id | id in backends :: backends[id].id == id
    ensures b in ListBackends(order, backends, configId)
       <==> b.id in order && b.id in backends && backends[b.id] == b && b.configId == configId
  {
    if order != [] {
      var init, last := order[..|order| - 1], order[|order| - 1];
      InListing(init, backends, configId, b);
      assert order == init + [last];
    }
  }

  lemma InDesired(rows: R.Rows, cfg: Config, ip: string)
    ensures ip in R.Desired(rows, cfg) <==> ip != "" && exists b | b in R.ChosenFor(rows, cfg) :: b.ip == ip
  {
    var addresses := R.Addresses(R.ChosenFor(rows, cfg));
    SortStringsSorts(addresses);
    InAddresses(R.ChosenFor(rows, cfg), ip);
    assert ip in R.Desired(rows, cfg) <==> ip in multiset(R.Desired(rows, cfg));
    assert ip in addresses <==> ip in multiset(addresses);
  }

  /** An enabled backend of the config whose last k remembered results, k its threshold at the last, succeeded. */
  predicate Vouched(w: World, cfg: Config, id: string)
  {
    && id in w.backends && w.backends[id].configId == cfg.id && w.backends[id].enabled
    && id in w.remembered && id in w.inForce && w.inForce[id] >= 1
    && SM.LastAll(w.remembered[id], |w.remembered[id]|, true, w.inForce[id])
  }

  /** The backends a config may publish are exactly its vouched ones. */
  lemma {:induction false} HealthyAreVouched(w: World, cfg: Config, b: Backend)
    requires TablesConsistent(w) && StatesEarned(w) && cfg.id in w.configs
    ensures b in R.HealthyOf(R.BackendsOf(RowsOf(w), cfg.id), w.states)
       <==> b.id in w.backends && w.backends[b.id] == b && Vouched(w, cfg, b.id)
  {
    InHealthy(R.BackendsOf(RowsOf(w), cfg.id), w.states, b);
    InListing(w.order, w.backends, cfg.id, b);
    if b.id in w.states {
      assert StateEarned(w.states[b.id], w.persisted[b.id], w.remembered[b.id], w.inForce[b.id]);
    }
  }

  /** Being vouched for takes k persisted successes in a row. */
  lemma {:induction false} VouchedIsPersisted(w: World, cfg: Config, id: string)
    requires TablesConsistent(w) && StatesEarned(w) && Vouched(w, cfg, id)
    ensures id in w.persisted && SM.LastAll(w.persisted[id], |w.persisted[id]|, true, w.inForce[id])
  {
    assert StateEarned(w.states[id], w.persisted[id], w.remembered[id], w.inForce[id]);
    var all, recent := w.persisted[id], w.remembered[id];
    forall i | |all| - w.inForce[id] <= i < |all|
      ensures all[i]
    {
      assert recent[i - (|all| - |recent|)] == all[i];
    }
  }

  lemma {:induction false} StepRemembers(w: World, e: Event)
    requires w.remembered == w.persisted && (e.ProbeResult? ==> !e.storeFaults.getState)
    ensures Next(w, e).remembered == Next(w, e).persisted
  {
  }

  /**
   * While no result comes when its backend's health state cannot be read, everything persisted is remembered, so
   * that k persisted successes in a row are all it takes.
   */
  lemma {:induction false} EverythingIsRemembered(run: seq<Event>)
    requires After(run).Some? && forall e | e in run && e.ProbeResult? :: !e.storeFaults.getState
    ensures After(run).value.remembered == After(run).value.persisted
  {
    if run != [] {
      var before, e := run[..|run| - 1], run[|run| - 1];
      assert e in run;
      EverythingIsRemembered(before);
      StepRemembers(After(before).value, e);
    }
  }

  /** The vouched backends of a config, as they are listed. */
  function VouchedAmong(w: World, cfg: Config, listed: seq<Backend>): seq<Backend>
  {
    if listed == [] then [] else
      var init, last := VouchedAmong(w, cfg, listed[..|listed| - 1]), listed[|listed| - 1];
      if Vouched(w, cfg, last.id) then init + [last] else init
  }

  function VouchedInOrder(w: World, cfg: Config): seq<Backend>
  {
    VouchedAmong(w, cfg, ListBackends(w.order, w.backends, cfg.id))
  }

  lemma {:induction false} HealthyIsVouchedAmong(w: World, cfg: Config, listed: seq<Backend>)
    requires StatesEarned(w)
    requires forall b | b in listed :: b.id in w.backends && w.backends[b.id] == b && b.configId == cfg.id
    ensures R.HealthyOf(listed, w.states) == VouchedAmong(w, cfg, listed)
  {
    if listed != [] {
      var init, last := listed[..|listed| - 1], listed[|listed| - 1];
      HealthyIsVouchedAmong(w, cfg, init);
      assert last in listed;
      if last.id in w.states {
        assert StateEarned(w.states[last.id], w.persisted[last.id], w.remembered[last.id], w.inForce[last.id]);
      }
    }
  }

  /** The list a config chooses from, in terms of tables and histories. */
  lemma {:induction false} HealthyInOrder(w: World, cfg: Config)
    requires TablesConsistent(w) && StatesEarned(w) && cfg.id in w.configs
    ensures R.HealthyOf(R.BackendsOf(RowsOf(w), cfg.id), w.states) == VouchedInOrder(w, cfg)
  {
    var listed := ListBackends(w.order, w.backends, cfg.id);
    forall b | b in listed
      ensures b.id in w.backends && w.backends[b.id] == b && b.configId == cfg.id
    {
      InListing(w.order, w.backends, cfg.id, b);
    }
    HealthyIsVouchedAmong(w, cfg, listed);
  }

  /** The addresses a config should publish: of its vouched backends, or of the first of least weight among them. */
  predicate Wanted(w: World, cfg: Config, ip: string)
  {
    && ip != ""
    && var vouched := VouchedInOrder(w, cfg);
       if cfg.lbMethod.Weighted? then
         exists i | 0 <= i < |vouched| :: Failover.FirstMinimum(vouched, i) && vouched[i].ip == ip
       else exists id | id in w.backends :: Vouched(w, cfg, id) && w.backends[id].ip == ip
  }

  lemma {:induction false} WeightedIsWanted(w: World, cfg: Config, ip: string)
    requires TablesConsistent(w) && StatesEarned(w) && cfg.id in w.configs && cfg.lbMethod.Weighted?
    ensures ip in R.Desired(RowsOf(w), cfg) <==> Wanted(w, cfg, ip)
  {
    var vouched := VouchedInOrder(w, cfg);
    HealthyInOrder(w, cfg);
    InDesired(RowsOf(w), cfg, ip);
    if vouched != [] {
      forall i | 0 <= i < |vouched|
        ensures Failover.FirstMinimum(vouched, i) <==> i == Failover.Primary(vouched)
      {
        Failover.PrimaryIsFirstMinimum(vouched, i);
      }
      assert R.ChosenFor(RowsOf(w), cfg) == [vouched[Failover.Primary(vouched)]];
    }
  }

  lemma {:induction false} OthersAreWanted(w: World, cfg: Config, ip: string)
    requires TablesConsistent(w) && StatesEarned(w) && cfg.id in w.configs && !cfg.lbMethod.Weighted?
    ensures ip in R.Desired(RowsOf(w), cfg) <==> Wanted(w, cfg, ip)
  {
    InDesired(RowsOf(w), cfg, ip);
    var chosen := R.ChosenFor(RowsOf(w), cfg);
    forall b
      ensures b in chosen <==> b.id in w.backends && w.backends[b.id] == b && Vouched(w, cfg, b.id)
    {
      HealthyAreVouched(w, cfg, b);
    }
    if id :| id in w.backends && Vouched(w, cfg, id) && w.backends[id].ip == ip {
      assert w.backends[id] in chosen;
    }
  }

  /** What a config should publish, in terms of the tables and the histories. */
  lemma {:induction false} DesiredIsVouched(w: World, cfg: Config, ip: string)
    requires TablesConsistent(w) && StatesEarned(w) && cfg.id in w.configs
    ensures ip in R.Desired(RowsOf(w), cfg) <==> Wanted(w, cfg, ip)
  {
    if cfg.lbMethod.Weighted? {
      WeightedIsWanted(w, cfg, ip);
    } else {
      OthersAreWanted(w, cfg, ip);
    }
  }

  predicate PublishedUnder(w: World, name: string, ip: string)
  {
    name in w.recon.zone && ip in w.recon.zone[name].ips
  }

  /** Reconciling this config now would report success and has a provider to write to. */
  predicate Succeeds(w: World, id: string, faults: R.Faults)
  {
    && id in w.configs && id in w.recon.provided
    && R.Reconciled(w.recon, RowsOf(w), w.configs[id], faults).1 == None
  }

  lemma {:induction false} SuccessCaches(s: R.State, rows: R.Rows, cfg: Config, faults: R.Faults)
    requires cfg.id in s.provided && R.Reconciled(s, rows, cfg, faults).1 == None
    ensures
      var after := R.Turn(s, rows, cfg, faults);
      cfg.id in after.cache && after.cache[cfg.id] == R.Desired(rows, cfg)
  {
    if P.WritesCache(s, rows, cfg, faults) {
      P.WriteExactly(s, rows, cfg, faults);
    }
  }

  /**
   * Right after any reconciliation that reports success, in any run, the zone publishes exactly the desired
   * list iff the last reconciliation of the config to write the cache, this one included, swallowed no
   * deletion.
   */
  lemma {:induction false} SuccessExactly(run: seq<Event>, id: string, faults: R.Faults)
    requires After(run).Some? && Succeeds(After(run).value, id, faults)
    ensures
      var w := After(run).value;
      var after := Next(w, Reconcile(id, faults));
      P.Publishes(after.recon.zone, w.configs[id].dnsName, R.Desired(RowsOf(w), w.configs[id])) <==>
        !Swallowed(after.marks, id)
  {
    var w := After(run).value;
    RunKeepsInvariants(run);
    StepKeepsTables(w, Reconcile(id, faults));
    SuccessCaches(w.recon, RowsOf(w), w.configs[id], faults);
    assert AgreesExactly(Next(w, Reconcile(id, faults)).recon, Next(w, Reconcile(id, faults)).marks, w.configs[id]);
  }

  /**
   * End-to-end safety: over all runs, the addresses published right after a success that left no deletion
   * swallowed are exactly the wanted ones: each of a backend that is enabled and whose last k results
   * succeeded, all of these, or of a weighted config the first of least weight among them.
   */
  lemma {:induction false} PublishedIsVouched(run: seq<Event>, id: string, faults: R.Faults, ip: string)
    requires After(run).Some? && Succeeds(After(run).value, id, faults)
    requires !Swallowed(Next(After(run).value, Reconcile(id, faults)).marks, id)
    ensures
      var w := After(run).value;
      PublishedUnder(Next(w, Reconcile(id, faults)), w.configs[id].dnsName, ip) <==> Wanted(w, w.configs[id], ip)
  {
    RunKeepsInvariants(run);
    SuccessExactly(run, id, faults);
    DesiredIsVouched(After(run).value, After(run).value.configs[id], ip);
  }

  /** What being wanted has taken: k persisted successes in a row of an enabled backend with that address. */
  lemma {:induction false} WantedIsPersisted(w: World, cfg: Config, ip: string)
    requires TablesConsistent(w) && StatesEarned(w) && cfg.id in w.configs && Wanted(w, cfg, ip)
    ensures exists id | id in w.backends && id in w.persisted && id in w.inForce ::
      && w.backends[id].ip == ip && w.backends[id].configId == cfg.id && w.backends[id].enabled
      && w.inForce[id] >= 1 && SM.LastAll(w.persisted[id], |w.persisted[id]|, true, w.inForce[id])
  {
    DesiredIsVouched(w, cfg, ip);
    InDesired(RowsOf(w), cfg, ip);
    var b :| b in R.ChosenFor(RowsOf(w), cfg) && b.ip == ip;
    HealthyAreVouched(w, cfg, b);
    VouchedIsPersisted(w, cfg, b.id);
  }

  /**
   * The comparison with the cache ignores TTLs: after a success, in any run, a published list has the config's
   * TTL iff this reconciliation wrote it, or the last one to write it found the TTL the config has now.
   */
  lemma {:induction false} TtlFollowsExactly(run: seq<Event>, id: string, faults: R.Faults)
    requires After(run).Some? && Succeeds(After(run).value, id, faults)
    requires R.Desired(RowsOf(After(run).value), After(run).value.configs[id]) != []
    ensures
      var w := After(run).value;
      var cfg, zone := w.configs[id], Next(w, Reconcile(id, faults)).recon.zone;
      && cfg.dnsName in zone
      && (zone[cfg.dnsName].ttl == cfg.dnsTtl <==>
            R.NeedsUpdate(w.recon.cache, id, R.Desired(RowsOf(w), cfg)) ||
              (id in w.marks && w.marks[id].ttl == cfg.dnsTtl))
  {
    var w := After(run).value;
    RunKeepsInvariants(run);
    StepKeepsTables(w, Reconcile(id, faults));
    SuccessCaches(w.recon, RowsOf(w), w.configs[id], faults);
    assert AgreesExactly(w.recon, w.marks, w.configs[id]);
    assert AgreesExactly(Next(w, Reconcile(id, faults)).recon, Next(w, Reconcile(id, faults)).marks, w.configs[id]);
  }

  /** A write that is skipped, in any run, was not needed iff no deletion had been swallowed. */
  lemma {:induction false} SkippedWriteWasNotNeeded(run: seq<Event>, id: string)
    requires After(run).Some? && id in After(run).value.configs
    requires
      var w := After(run).value;
      !R.NeedsUpdate(w.recon.cache, id, R.Desired(RowsOf(w), w.configs[id]))
    ensures
      var w := After(run).value;
      P.Publishes(w.recon.zone, w.configs[id].dnsName, R.Desired(RowsOf(w), w.configs[id])) <==> !Swallowed(w.marks, id)
  {
    RunKeepsInvariants(run);
    assert AgreesExactly(After(run).value.recon, After(run).value.marks, After(run).value.configs[id]);
  }

  lemma {:induction false} PassCaches(w: World, configs: seq<Config>, faults: R.Faults, i: nat)
    requires Possible(w, ReconcileAll(configs, faults)) && i < |configs| && Succeeds(w, configs[i].id, faults)
    ensures
      var cache := Next(w, ReconcileAll(configs, faults)).recon.cache;
      configs[i].id in cache && cache[configs[i].id] == R.Desired(RowsOf(w), configs[i])
  {
    var cfg := configs[i];
    assert w.configs[cfg.id] == cfg;
    SuccessCaches(w.recon, RowsOf(w), cfg, faults);
    P.PassIsolation(w.recon, RowsOf(w), configs, faults, i);
    var alone, all := R.Turn(w.recon, RowsOf(w), cfg, faults).cache, R.Pass(w.recon, RowsOf(w), configs, faults).cache;
    assert P.Lookup(all, cfg.id) == P.Lookup(alone, cfg.id) == Some(R.Desired(RowsOf(w), cfg));
  }

  /** A full pass, in any order, does the same for every config that would succeed on its own. */
  lemma {:induction false} PassZoneIsDesired(run: seq<Event>, configs: seq<Config>, faults: R.Faults, i: nat)
    requires After(run).Some? && Possible(After(run).value, ReconcileAll(configs, faults))
    requires i < |configs| && Succeeds(After(run).value, configs[i].id, faults)
    ensures
      var w := After(run).value;
      var after := Next(w, ReconcileAll(configs, faults));
      P.Publishes(after.recon.zone, configs[i].dnsName, R.Desired(RowsOf(w), configs[i])) <==>
        !Swallowed(after.marks, configs[i].id)
  {
    var w := After(run).value;
    RunKeepsInvariants(run);
    PassAgrees(w, configs, faults);
    PassCaches(w, configs, faults, i);
    assert w.configs[configs[i].id] == configs[i];
  }

  // ---------- Runs without failing deletions ----------

  /** Without failing deletions none is swallowed: the others find nothing to delete. */
  lemma {:induction false} NothingToSwallow(marks: Marks, s: R.State, rows: R.Rows, cfg: Config, faults: R.Faults)
    requires faults.deletes == {} && cfg.dnsName != ""
    requires forall id :: !Swallowed(marks, id)
    ensures forall id :: !Swallowed(MarksAfter(marks, s, rows, cfg, faults), id)
  {
    assert !P.DeleteSwallowed(s, cfg, R.Desired(rows, cfg), faults);
    forall id
      ensures !Swallowed(MarksAfter(marks, s, rows, cfg, faults), id)
    {
      assert !Swallowed(marks, id);
    }
  }

  lemma {:induction false} PassSwallowsNothing(
    marks: Marks, s: R.State, rows: R.Rows, configs: seq<Config>, faults: R.Faults)
    requires faults.deletes == {} && forall cfg | cfg in configs :: cfg.dnsName != ""
    requires forall id :: !Swallowed(marks, id)
    ensures forall id :: !Swallowed(MarksAfterPass(marks, s, rows, configs, faults), id)
  {
    if configs != [] {
      var init, last := configs[..|configs| - 1], configs[|configs| - 1];
      PassSwallowsNothing(marks, s, rows, init, faults);
      assert last in configs;
      NothingToSwallow(MarksAfterPass(marks, s, rows, init, faults), R.Pass(s, rows, init, faults), rows, last, faults);
    }
  }

  lemma {:induction false} StepSwallowsNothing(w: World, e: Event)
    requires TablesConsistent(w) && Possible(w, e) && forall id :: !Swallowed(w.marks, id)
    requires e.Reconcile? || e.ReconcileAll? ==> e.faults.deletes == {}
    ensures forall id :: !Swallowed(Next(w, e).marks, id)
  {
    match e
    case Reconcile(id, faults) =>
      if id in w.configs {
        NothingToSwallow(w.marks, w.recon, RowsOf(w), w.configs[id], faults);
      }
    case ReconcileAll(configs, faults) =>
      forall cfg | cfg in configs
        ensures cfg.dnsName != ""
      {
        assert w.configs[cfg.id] == cfg;
      }
      PassSwallowsNothing(w.marks, w.recon, RowsOf(w), configs, faults);
    case _ =>
  }

  /**
   * While deletions fail only when there is nothing to delete, every cached list is what the zone publishes,
   * so that the conditions of the theorems above hold in every run.
   */
  lemma {:induction false} NothingIsSwallowed(run: seq<Event>)
    requires After(run).Some? && forall e | e in run && (e.Reconcile? || e.ReconcileAll?) :: e.faults.deletes == {}
    ensures forall id :: !Swallowed(After(run).value.marks, id)
  {
    if run != [] {
      var before, e := run[..|run| - 1], run[|run| - 1];
      assert e in run && forall e | e in before :: e in run;
      NothingIsSwallowed(before);
      RunKeepsInvariants(before);
      StepSwallowsNothing(After(before).value, e);
    }
  }

  // ---------- Reconciliations whose calls work ----------

  /** No call that reconciling the config makes fails. */
  predicate CallsWork(cfg: Config, faults: R.Faults)
  {
    && cfg.id !in faults.listBackends && cfg.id !in faults.healthStates
    && cfg.dnsName !in faults.upserts && cfg.dnsName !in faults.deletes
  }

  lemma CallsWorkExactly(cfg: Config, faults: R.Faults)
    ensures CallsWork(cfg, faults) <==>
      && cfg.id !in faults.listBackends + faults.healthStates
      && cfg.dnsName !in faults.upserts + faults.deletes
  {
  }

  /** Reconciling a config that has a provider and a positive TTL succeeds if its calls work. */
  lemma {:induction false} WorkingSucceeds(run: seq<Event>, id: string, faults: R.Faults)
    requires After(run).Some? && id in After(run).value.configs && id in After(run).value.recon.provided
    requires After(run).value.configs[id].dnsTtl > 0 && CallsWork(After(run).value.configs[id], faults)
    ensures Succeeds(After(run).value, id, faults)
  {
    RunKeepsInvariants(run);
    var w := After(run).value;
    R.OutcomeExactly(w.recon, RowsOf(w), w.configs[id], faults);
  }

  /**
   * In every run, a reconciliation with a provider, a positive TTL and working calls publishes exactly the wanted
   * addresses, unless nothing is wanted and an earlier failed deletion was swallowed.
   */
  lemma {:induction false} WorkingPublishesWanted(run: seq<Event>, id: string, faults: R.Faults, ip: string)
    requires After(run).Some? && id in After(run).value.configs && id in After(run).value.recon.provided
    requires After(run).value.configs[id].dnsTtl > 0 && CallsWork(After(run).value.configs[id], faults)
    requires var w := After(run).value; !Swallowed(w.marks, id) || R.Desired(RowsOf(w), w.configs[id]) != []
    ensures
      var w := After(run).value;
      && PublishedUnder(Next(w, Reconcile(id, faults)), w.configs[id].dnsName, ip) <==> Wanted(w, w.configs[id], ip)
  {
    RunKeepsInvariants(run);
    WorkingSucceeds(run, id, faults);
    WorkingSwallowsNothing(After(run).value, id, faults);
    PublishedIsVouched(run, id, faults, ip);
  }

  lemma {:induction false} WorkingSwallowsNothing(w: World, id: string, faults: R.Faults)
    requires TablesConsistent(w) && CacheAgrees(w) && id in w.configs && CallsWork(w.configs[id], faults)
    requires !Swallowed(w.marks, id) || R.Desired(RowsOf(w), w.configs[id]) != []
    requires Succeeds(w, id, faults)
    ensures !Swallowed(Next(w, Reconcile(id, faults)).marks, id)
  {
    assert AgreesExactly(w.recon, w.marks, w.configs[id]);
  }

  /** So it does in every run whose deletions work, whatever else has failed before. */
  lemma {:induction false} WorkingPublishesAlways(run: seq<Event>, id: string, faults: R.Faults, ip: string)
    requires After(run).Some? && forall e | e in run && (e.Reconcile? || e.ReconcileAll?) :: e.faults.deletes == {}
    requires id in After(run).value.configs && id in After(run).value.recon.provided
    requires After(run).value.configs[id].dnsTtl > 0 && CallsWork(After(run).value.configs[id], faults)
    ensures
      var w := After(run).value;
      PublishedUnder(Next(w, Reconcile(id, faults)), w.configs[id].dnsName, ip) <==> Wanted(w, w.configs[id], ip)
  {
    NothingIsSwallowed(run);
    WorkingPublishesWanted(run, id, faults, ip);
  }

  /**
   * A restarted reconciler has forgotten what it swallowed: its first reconciliation of a config whose calls
   * work publishes exactly the wanted addresses, in every run.
   */
  lemma {:induction false} RestartRepairs(run: seq<Event>, id: string, faults: R.Faults, ip: string)
    requires After(run).Some? && id in After(run).value.configs && id in After(run).value.recon.provided
    requires After(run).value.configs[id].dnsTtl > 0 && CallsWork(After(run).value.configs[id], faults)
    ensures After(run + [Restart] + [Reconcile(id, faults)]).Some?
    ensures
      var w := After(run).value;
      var later := After(run + [Restart] + [Reconcile(id, faults)]).value;
      PublishedUnder(later, w.configs[id].dnsName, ip) <==> Wanted(w, w.configs[id], ip)
  {
    var w := After(run).value;
    AfterSnoc(run, Restart);
    AfterSnoc(run + [Restart], Reconcile(id, faults));
    WorkingPublishesWanted(run + [Restart], id, faults, ip);
    WantedIgnoresCache(w, Next(w, Restart), w.configs[id], ip);
  }

  lemma {:induction false} WantedIgnoresCache(w: World, v: World, cfg: Config, ip: string)
    requires v.backends == w.backends && v.order == w.order && v.remembered == w.remembered && v.inForce == w.inForce
    ensures Wanted(v, cfg, ip) <==> Wanted(w, cfg, ip)
  {
    VouchedIgnoresCache(w, v, cfg, ListBackends(w.order, w.backends, cfg.id));
    assert VouchedInOrder(v, cfg) == VouchedInOrder(w, cfg);
    forall id
      ensures Vouched(v, cfg, id) <==> Vouched(w, cfg, id)
    {
    }
  }

  lemma {:induction false} VouchedIgnoresCache(w: World, v: World, cfg: Config, listed: seq<Backend>)
    requires v.backends == w.backends && v.order == w.order && v.remembered == w.remembered && v.inForce == w.inForce
    ensures VouchedAmong(v, cfg, listed) == VouchedAmong(w, cfg, listed)
  {
    if listed != [] {
      VouchedIgnoresCache(w, v, cfg, listed[..|listed| - 1]);
    }
  }

  // ---------- From results to the zone ----------

  lemma {:induction false} AfterSnoc(run: seq<Event>, e: Event)
    requires After(run).Some? && Possible(After(run).value, e)
    ensures After(run + [e]) == Some(Next(After(run).value, e))
  {
    assert (run + [e])[..|run|] == run;
  }

  const WORKING := StoreFaults(false, false, false, false)

  /** The backend's check, healthy or not, with every store call working. */
  function Probe(id: string, healthy: bool, now: int): Event
  {
    ProbeResult(CheckResult(id, healthy, None), WORKING, now)
  }

  function Probes(id: string, k: nat, now: int): seq<Event>
  {
    if k == 0 then [] else Probes(id, k - 1, now) + [Probe(id, true, now)]
  }

  /** Everything a result leaves alone. */
  predicate SameTables(w: World, after: World)
  {
    && after.configs == w.configs && after.usedIds == w.usedIds && after.backends == w.backends
    && after.order == w.order && after.checks == w.checks && after.recon == w.recon && after.marks == w.marks
  }

  /** The last k remembered results of the backend succeeded, judged by its own check. */
  predicate Recovered(w: World, id: string, k: nat)
  {
    && id in w.remembered && SM.LastAll(w.remembered[id], |w.remembered[id]|, true, k)
    && id in w.inForce && w.inForce[id] == InForce(w.backends, w.checks, id, WORKING, true)
  }

  lemma {:induction false} OneMoreSuccess(w: World, id: string, k: nat, now: int)
    requires id in w.backends && (k > 0 ==> Recovered(w, id, k))
    ensures SameTables(w, Next(w, Probe(id, true, now))) && Recovered(Next(w, Probe(id, true, now)), id, k + 1)
  {
  }

  lemma {:induction false} SuccessAppended(run: seq<Event>, id: string, k: nat, now: int)
    requires After(run).Some? && id in After(run).value.backends && (k > 0 ==> Recovered(After(run).value, id, k))
    ensures After(run + [Probe(id, true, now)]).Some?
    ensures
      var after := After(run + [Probe(id, true, now)]).value;
      SameTables(After(run).value, after) && Recovered(after, id, k + 1)
  {
    AfterSnoc(run, Probe(id, true, now));
    OneMoreSuccess(After(run).value, id, k, now);
  }

  lemma {:induction false} SuccessesAreRemembered(run: seq<Event>, id: string, k: nat, now: int)
    requires After(run).Some? && id in After(run).value.backends
    ensures After(run + Probes(id, k, now)).Some?
    ensures
      var after := After(run + Probes(id, k, now)).value;
      SameTables(After(run).value, after) && (k > 0 ==> Recovered(after, id, k))
  {
    if k == 0 {
      assert run + [] == run;
    } else {
      SuccessesAreRemembered(run, id, k - 1, now);
      var longer := run + Probes(id, k - 1, now);
      assert longer + [Probe(id, true, now)] == run + Probes(id, k, now);
      SuccessAppended(longer, id, k - 1, now);
    }
  }

  /**
   * Recovery: whatever has happened before, as many working checks in a row as the backend's threshold says,
   * then a reconciliation whose calls work, and an enabled backend of a config that publishes all is published.
   */
  lemma {:induction false} RecoveryPublishes(run: seq<Event>, id: string, k: nat, now: int, faults: R.Faults)
    requires After(run).Some? && id in After(run).value.backends
    requires
      var w, b := After(run).value, After(run).value.backends[id];
      && b.enabled && b.ip != ""
      && k >= (if b.configId in w.checks && w.checks[b.configId].thresholdHealthy > 0
               then w.checks[b.configId].thresholdHealthy else 2)
      && b.configId in w.configs && b.configId in w.recon.provided
      && !w.configs[b.configId].lbMethod.Weighted? && w.configs[b.configId].dnsTtl > 0
      && CallsWork(w.configs[b.configId], faults)
    ensures
      var w, b := After(run).value, After(run).value.backends[id];
      var later := After(run + Probes(id, k, now) + [Reconcile(b.configId, faults)]);
      later.Some? && PublishedUnder(later.value, w.configs[b.configId].dnsName, b.ip)
  {
    var probed := run + Probes(id, k, now);
    SuccessesAreRemembered(run, id, k, now);
    RunKeepsInvariants(run);
    RunKeepsInvariants(probed);
    var w := After(probed).value;
    var b := w.backends[id];
    InForceExactly(w.backends, w.checks, id, WORKING);
    assert Vouched(w, w.configs[b.configId], id);
    DesiredIsVouched(w, w.configs[b.configId], b.ip);
    WorkingPublishesWanted(probed, b.configId, faults, b.ip);
    AfterSnoc(probed, Reconcile(b.configId, faults));
  }

  predicate OnlyOneWith(w: World, id: string)
    requires id in w.backends
  {
    forall other | other in w.backends && w.backends[other].ip == w.backends[id].ip
      && w.backends[other].configId == w.backends[id].configId :: other == id
  }

  lemma {:induction false} FailedIsNotWanted(w: World, id: string, now: int)
    requires TablesConsistent(w) && StatesEarned(w) && id in w.backends && OnlyOneWith(w, id)
    requires w.backends[id].configId in w.configs
    ensures
      var after := Next(w, Probe(id, false, now));
      SameTables(w, after) && !Wanted(after, w.configs[w.backends[id].configId], w.backends[id].ip)
  {
    var after, cfg := Next(w, Probe(id, false, now)), w.configs[w.backends[id].configId];
    var seen := after.remembered[id];
    assert seen == HistoryOf(w.remembered, id) + [false];
    assert !seen[|seen| - 1];
    forall i | 0 <= i < |VouchedInOrder(after, cfg)|
      ensures VouchedInOrder(after, cfg)[i].ip != w.backends[id].ip
    {
      VouchedIsListed(after, cfg, ListBackends(after.order, after.backends, cfg.id), i);
      InListing(after.order, after.backends, cfg.id, VouchedInOrder(after, cfg)[i]);
    }
  }

  lemma {:induction false} VouchedIsListed(w: World, cfg: Config, listed: seq<Backend>, i: nat)
    requires i < |VouchedAmong(w, cfg, listed)|
    ensures VouchedAmong(w, cfg, listed)[i] in listed && Vouched(w, cfg, VouchedAmong(w, cfg, listed)[i].id)
  {
    var init, last := listed[..|listed| - 1], listed[|listed| - 1];
    if i < |VouchedAmong(w, cfg, init)| {
      VouchedIsListed(w, cfg, init, i);
    }
  }

  /**
   * Failover: a single failed check, then a reconciliation whose calls work, and the address is gone, whatever
   * has happened before, unless another backend of the config shares it or a deletion was swallowed.
   */
  lemma {:induction false} FailureUnpublishes(run: seq<Event>, id: string, now: int, faults: R.Faults)
    requires After(run).Some? && id in After(run).value.backends && OnlyOneWith(After(run).value, id)
    requires
      var w, b := After(run).value, After(run).value.backends[id];
      && b.configId in w.configs && b.configId in w.recon.provided && w.configs[b.configId].dnsTtl > 0
      && CallsWork(w.configs[b.configId], faults) && !Swallowed(w.marks, b.configId)
    ensures
      var w, b := After(run).value, After(run).value.backends[id];
      var later := After(run + [Probe(id, false, now)] + [Reconcile(b.configId, faults)]);
      later.Some? && !PublishedUnder(later.value, w.configs[b.configId].dnsName, b.ip)
  {
    var failed := run + [Probe(id, false, now)];
    var b := After(run).value.backends[id];
    RunKeepsInvariants(run);
    AfterSnoc(run, Probe(id, false, now));
    FailedIsNotWanted(After(run).value, id, now);
    WorkingPublishesWanted(failed, b.configId, faults, b.ip);
    AfterSnoc(failed, Reconcile(b.configId, faults));
  }

  /** The tables can be filled: a config with a name, its provider and its first backend, from the empty start. */
  lemma {:induction false} TablesCanBeFilled(cfg: Config, b: Backend)
    requires cfg.dnsName != "" && b.configId == cfg.id
    ensures
      var w := After([] + [CreateConfig(cfg)] + [SetProvider(cfg.id, true)] + [PutBackend(b)]);
      && w.Some? && w.value.configs == map[cfg.id := cfg] && w.value.backends == map[b.id := b]
      && w.value.recon.provided == {cfg.id}
  {
    AfterSnoc([], CreateConfig(cfg));
    AfterSnoc([] + [CreateConfig(cfg)], SetProvider(cfg.id, true));
    AfterSnoc([] + [CreateConfig(cfg)] + [SetProvider(cfg.id, true)], PutBackend(b));
  }

  /** Edits go through: of a config's fields but its name, and of any backend under a live config. */
  lemma {:induction false} EditsGoThrough(run: seq<Event>, cfg: Config, b: Backend)
    requires After(run).Some? && cfg.id in After(run).value.configs && b.configId == cfg.id
    requires cfg.dnsName == After(run).value.configs[cfg.id].dnsName
    ensures
      var w := After(run + [EditConfig(cfg)] + [PutBackend(b)]);
      && w.Some? && w.value.configs[cfg.id] == cfg
      && w.value.backends == After(run).value.backends[b.id := b]
  {
    AfterSnoc(run, EditConfig(cfg));
    AfterSnoc(run + [EditConfig(cfg)], PutBackend(b));
  }

  /** A full pass over any listing of live configs, each once, is always possible: their names never collide. */
  lemma {:induction false} ListingsAreSeparate(run: seq<Event>, configs: seq<Config>, faults: R.Faults)
    requires After(run).Some?
    requires forall i, j | 0 <= i < j < |configs| :: configs[i].id != configs[j].id
    requires forall i | 0 <= i < |configs| :: configs[i].id in After(run).value.configs
    requires forall i | 0 <= i < |configs| :: After(run).value.configs[configs[i].id] == configs[i]
    ensures After(run + [ReconcileAll(configs, faults)]).Some?
  {
    var w := After(run).value;
    RunKeepsInvariants(run);
    forall i, j | 0 <= i < j < |configs|
      ensures configs[i].dnsName != configs[j].dnsName
    {
      assert NameFree(w, w.configs[configs[j].id]);
    }
    AfterSnoc(run, ReconcileAll(configs, faults));
  }

  // ---------- Keys ----------

  ghost predicate ListsOnce(order: seq<string>, ids: set<string>)
  {
    && (forall id :: id in order <==> id in ids)
    && forall i, j | 0 <= i < j < |order| :: order[i] != order[j]
  }

  lemma {:induction false} DroppedListsOnce(order: seq<string>, ids: set<string>, gone: set<string>)
    requires ListsOnce(order, ids)
    ensures ListsOnce(Dropped(order, gone), ids - gone)
  {
    forall id
      ensures id in Dropped(order, gone) <==> id in ids - gone
    {
      InDropped(order, gone, id);
    }
    DroppedKeepsDistinct(order, gone);
  }

  lemma {:induction false} DroppedKeepsDistinct(order: seq<string>, gone: set<string>)
    requires forall i, j | 0 <= i < j < |order| :: order[i] != order[j]
    ensures forall i, j | 0 <= i < j < |Dropped(order, gone)| :: Dropped(order, gone)[i] != Dropped(order, gone)[j]
  {
    if order != [] {
      DroppedKeepsDistinct(order[1..], gone);
      InDropped(order[1..], gone, order[0]);
    }
  }

  /** Every state belongs to a backend, every backend to a config, and listing gives every backend once. */
  ghost predicate KeysHold(w: World)
  {
    && w.states.Keys <= w.backends.Keys
    && (forall id | id in w.backends :: w.backends[id].configId in w.configs)
    && ListsOnce(w.order, w.backends.Keys)
  }

  lemma {:induction false} StepKeepsKeys(w: World, e: Event)
    requires KeysHold(w) && Possible(w, e)
    ensures KeysHold(Next(w, e))
  {
    if e.DeleteBackend? {
      DroppedListsOnce(w.order, w.backends.Keys, {e.id});
    } else if e.DeleteConfig? {
      DroppedListsOnce(w.order, w.backends.Keys, BackendIdsOf(w, e.id));
    }
  }

  /** Deletions cascade, so in every run no state outlives its backend and no backend its config. */
  lemma {:induction false} NothingIsOrphaned(run: seq<Event>)
    requires After(run).Some?
    ensures
      var w := After(run).value;
      && (forall id | id in w.states :: id in w.backends)
      && (forall id | id in w.backends :: w.backends[id].configId in w.configs && id in w.order)
      && (forall i | 0 <= i < |w.order| :: w.order[i] in w.backends)
      && (forall i, j | 0 <= i < j < |w.order| :: w.order[i] != w.order[j])
  {
    RunKeepsKeys(run);
  }

  lemma {:induction false} RunKeepsKeys(run: seq<Event>)
    requires After(run).Some?
    ensures KeysHold(After(run).value)
  {
    if run != [] {
      RunKeepsKeys(run[..|run| - 1]);
      StepKeepsKeys(After(run[..|run| - 1]).value, run[|run| - 1]);
    }
  }

  // ---------- What is reported ----------

  /** The backends a reconciliation reports as selected are those it publishes: the vouched, or the first of them. */
  lemma {:induction false} SelectedIsVouched(w: World, cfg: Config, faults: R.Faults, id: string)
    requires TablesConsistent(w) && StatesEarned(w) && cfg.id in w.configs
    requires cfg.id !in faults.listBackends && cfg.id !in faults.healthStates
    ensures
      var vouched := VouchedInOrder(w, cfg);
      id in R.Selections(RowsOf(w), cfg, faults) <==>
        exists i | 0 <= i < |vouched| ::
          vouched[i].id == id && (cfg.lbMethod.Weighted? ==> Failover.FirstMinimum(vouched, i))
  {
    var vouched, chosen := VouchedInOrder(w, cfg), R.ChosenFor(RowsOf(w), cfg);
    HealthyInOrder(w, cfg);
    R.SelectionsExactly(RowsOf(w), cfg, faults);
    var selected := R.Selections(RowsOf(w), cfg, faults);
    assert id in selected <==> exists i | 0 <= i < |chosen| :: chosen[i].id == id by {
      assert forall i | 0 <= i < |chosen| :: selected[i] == chosen[i].id;
    }
    if cfg.lbMethod.Weighted? && vouched != [] {
      forall i | 0 <= i < |vouched|
        ensures Failover.FirstMinimum(vouched, i) <==> i == Failover.Primary(vouched)
      {
        Failover.PrimaryIsFirstMinimum(vouched, i);
      }
      assert chosen == [vouched[Failover.Primary(vouched)]];
    }
  }

  // ---------- Quiet while nothing changes ----------

  /** The world after more events; None when one was not possible. */
  function AfterMore(w: World, more: seq<Event>): Option<World>
  {
    if more == [] then Some(w) else
      var before, e := AfterMore(w, more[..|more| - 1]), more[|more| - 1];
      if before.Some? && Possible(before.value, e) then Some(Next(before.value, e)) else None
  }

  /** The config is there and should publish ips. */
  predicate Wants(w: World, id: string, ips: seq<string>)
  {
    id in w.configs && R.Desired(RowsOf(w), w.configs[id]) == ips
  }

  /** It is and should before each of the events. */
  predicate WantsThroughout(w: World, more: seq<Event>, id: string, ips: seq<string>)
  {
    more != [] ==>
      var init := more[..|more| - 1];
      WantsThroughout(w, init, id, ips) && AfterMore(w, init).Some? && Wants(AfterMore(w, init).value, id, ips)
  }

  /** A turn of any config leaves alone what is cached as desired for this one, and published. */
  lemma {:induction false} QuietTurn(s: R.State, rows: R.Rows, turned: Config, faults: R.Faults, cfg: Config)
    requires turned == cfg || (turned.id != cfg.id && turned.dnsName != cfg.dnsName)
    requires P.Lookup(s.cache, cfg.id) == Some(R.Desired(rows, cfg))
    ensures
      var after := R.Turn(s, rows, turned, faults);
      && P.Lookup(after.cache, cfg.id) == P.Lookup(s.cache, cfg.id)
      && P.Lookup(after.zone, cfg.dnsName) == P.Lookup(s.zone, cfg.dnsName)
  {
    if turned == cfg {
      P.NoWriteNoChange(s, rows, cfg, faults);
    } else {
      P.TurnLeavesOthers(s, rows, turned, faults, cfg.id, cfg.dnsName);
    }
  }

  lemma {:induction false} QuietPass(s: R.State, rows: R.Rows, configs: seq<Config>, faults: R.Faults, cfg: Config)
    requires forall i | 0 <= i < |configs| ::
      configs[i] == cfg || (configs[i].id != cfg.id && configs[i].dnsName != cfg.dnsName)
    requires P.Lookup(s.cache, cfg.id) == Some(R.Desired(rows, cfg))
    ensures
      var after := R.Pass(s, rows, configs, faults);
      && P.Lookup(after.cache, cfg.id) == P.Lookup(s.cache, cfg.id)
      && P.Lookup(after.zone, cfg.dnsName) == P.Lookup(s.zone, cfg.dnsName)
  {
    if configs != [] {
      QuietPass(s, rows, configs[..|configs| - 1], faults, cfg);
      QuietTurn(R.Pass(s, rows, configs[..|configs| - 1], faults), rows, configs[|configs| - 1], faults, cfg);
    }
  }

  lemma {:induction false} QuietReconcile(w: World, turned: string, faults: R.Faults, id: string, ips: seq<string>)
    requires TablesConsistent(w) && Wants(w, id, ips) && turned in w.configs
    requires P.Lookup(w.recon.cache, id) == Some(ips)
    ensures
      var name, after := w.configs[id].dnsName, R.Turn(w.recon, RowsOf(w), w.configs[turned], faults);
      && P.Lookup(after.cache, id) == Some(ips)
      && P.Lookup(after.zone, name) == P.Lookup(w.recon.zone, name)
  {
    QuietTurn(w.recon, RowsOf(w), w.configs[turned], faults, w.configs[id]);
  }

  lemma {:induction false} QuietReconcileAll(
    w: World, configs: seq<Config>, faults: R.Faults, id: string, ips: seq<string>)
    requires TablesConsistent(w) && Wants(w, id, ips) && Possible(w, ReconcileAll(configs, faults))
    requires P.Lookup(w.recon.cache, id) == Some(ips)
    ensures
      var name, after := w.configs[id].dnsName, R.Pass(w.recon, RowsOf(w), configs, faults);
      && P.Lookup(after.cache, id) == Some(ips)
      && P.Lookup(after.zone, name) == P.Lookup(w.recon.zone, name)
  {
    forall i | 0 <= i < |configs|
      ensures configs[i] == w.configs[id] || (configs[i].id != id && configs[i].dnsName != w.configs[id].dnsName)
    {
      assert w.configs[configs[i].id] == configs[i];
    }
    QuietPass(w.recon, RowsOf(w), configs, faults, w.configs[id]);
  }

  lemma {:induction false} EditsAreQuiet(w: World, e: Event)
    requires Possible(w, e) && !e.Reconcile? && !e.ReconcileAll? && !e.Restart?
    ensures Next(w, e).recon.cache == w.recon.cache && Next(w, e).recon.zone == w.recon.zone
  {
  }

  lemma {:induction false} NamesAreKept(w: World, e: Event, id: string)
    requires w.configs.Keys <= w.usedIds && Possible(w, e) && id in w.configs
    ensures id in Next(w, e).configs ==> Next(w, e).configs[id].dnsName == w.configs[id].dnsName
  {
  }

  lemma {:induction false} QuietStep(w: World, e: Event, id: string, ips: seq<string>)
    requires TablesConsistent(w) && Possible(w, e) && Wants(w, id, ips) && !e.Restart?
    requires P.Lookup(w.recon.cache, id) == Some(ips)
    ensures
      var name := w.configs[id].dnsName;
      && P.Lookup(Next(w, e).recon.cache, id) == Some(ips)
      && P.Lookup(Next(w, e).recon.zone, name) == P.Lookup(w.recon.zone, name)
      && (id in Next(w, e).configs ==> Next(w, e).configs[id].dnsName == name)
  {
    NamesAreKept(w, e, id);
    if e.Reconcile? {
      if e.id in w.configs {
        QuietReconcile(w, e.id, e.faults, id, ips);
      }
    } else if e.ReconcileAll? {
      QuietReconcileAll(w, e.configs, e.faults, id, ips);
    } else {
      EditsAreQuiet(w, e);
    }
  }

  /**
   * Quiet: once the list a config should publish is cached, then through whatever results, edits and
   * reconciliations follow short of a restart, as long as it should publish that list, nothing touches what its
   * name publishes and no provider call is made for it.
   */
  lemma {:induction false} QuietWhileWanted(w: World, more: seq<Event>, id: string, ips: seq<string>)
    requires TablesConsistent(w) && CacheAgrees(w) && id in w.configs && P.Lookup(w.recon.cache, id) == Some(ips)
    requires AfterMore(w, more).Some? && WantsThroughout(w, more, id, ips) && Restart !in more
    ensures
      var later, name := AfterMore(w, more).value, w.configs[id].dnsName;
      && TablesConsistent(later) && CacheAgrees(later)
      && P.Lookup(later.recon.cache, id) == Some(ips) && !R.NeedsUpdate(later.recon.cache, id, ips)
      && P.Lookup(later.recon.zone, name) == P.Lookup(w.recon.zone, name)
      && (id in later.configs ==> later.configs[id].dnsName == name)
  {
    if more != [] {
      var init, e := more[..|more| - 1], more[|more| - 1];
      QuietWhileWanted(w, init, id, ips);
      StepKeepsTables(AfterMore(w, init).value, e);
      QuietStep(AfterMore(w, init).value, e, id, ips);
    }
  }

  /** So it is after every success of every run. */
  lemma {:induction false} QuietAfterSuccess(run: seq<Event>, id: string, faults: R.Faults, more: seq<Event>)
    requires After(run).Some? && Succeeds(After(run).value, id, faults)
    requires
      var w := After(run).value;
      var after := Next(w, Reconcile(id, faults));
      && AfterMore(after, more).Some? && Restart !in more
      && WantsThroughout(after, more, id, R.Desired(RowsOf(w), w.configs[id]))
    ensures
      var after := Next(After(run).value, Reconcile(id, faults));
      var later, name := AfterMore(after, more).value, after.configs[id].dnsName;
      && P.Lookup(later.recon.zone, name) == P.Lookup(after.recon.zone, name)
      && P.Lookup(later.recon.cache, id) == P.Lookup(after.recon.cache, id)
  {
    var w := After(run).value;
    RunKeepsInvariants(run);
    StepKeepsTables(w, Reconcile(id, faults));
    SuccessCaches(w.recon, RowsOf(w), w.configs[id], faults);
    QuietWhileWanted(Next(w, Reconcile(id, faults)), more, id, R.Desired(RowsOf(w), w.configs[id]));
  }

  /** A second reconciliation right after a success, with whatever failures, leaves the zone as it is. */
  lemma {:induction false} SecondTimeIsQuiet(run: seq<Event>, id: string, first: R.Faults, second: R.Faults)
    requires After(run).Some? && Succeeds(After(run).value, id, first)
    ensures
      var once := Next(After(run).value, Reconcile(id, first));
      var name := once.configs[id].dnsName;
      P.Lookup(Next(once, Reconcile(id, second)).recon.zone, name) == P.Lookup(once.recon.zone, name)
  {
    var once := Next(After(run).value, Reconcile(id, first));
    var ips := R.Desired(RowsOf(After(run).value), After(run).value.configs[id]);
    assert RowsOf(once) == RowsOf(After(run).value);
    assert AfterMore(once, []) == Some(once) && WantsThroughout(once, [], id, ips);
    assert [Reconcile(id, second)][..0] == [];
    assert AfterMore(once, [Reconcile(id, second)]) == Some(Next(once, Reconcile(id, second)));
    QuietAfterSuccess(run, id, first, [Reconcile(id, second)]);
  }
}
