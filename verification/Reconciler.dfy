/** The DNS reconciler and its cache of published addresses (internal/dns/reconciler.go). */
module Reconciler {
  import opened Types
  import opened Sorting
  import opened Provider
  import Failover
  import Mock = MockProvider
  import opened Scheduler

  // ---------- Specification: what a config should publish ----------

  /** The rows the reconciler reads: backends by config, in listing order, and health states by backend. */
  datatype Rows = Rows(backends: map<string, seq<Backend>>, states: map<string, HealthState>)

  function BackendsOf(rows: Rows, configId: string): seq<Backend>
  {
    if configId in rows.backends then rows.backends[configId] else []
  }

  predicate Serving(states: map<string, HealthState>, b: Backend)
  {
    b.enabled && b.id in states && states[b.id].status == Healthy
  }

  /** The enabled backends whose state says healthy, in listing order. */
  function HealthyOf(backends: seq<Backend>, states: map<string, HealthState>): seq<Backend>
  {
    if backends == [] then [] else
      var init, last := HealthyOf(backends[..|backends| - 1], states), backends[|backends| - 1];
      if Serving(states, last) then init + [last] else init
  }

  /** One backend for a weighted config, all of them for every other method. */
  function ChosenFrom(lbMethod: LBMethod, healthy: seq<Backend>): seq<Backend>
  {
    if lbMethod.Weighted? then (if healthy == [] then [] else [healthy[Failover.Primary(healthy)]]) else healthy
  }

  function Addresses(backends: seq<Backend>): seq<string>
  {
    if backends == [] then [] else
      var init, last := Addresses(backends[..|backends| - 1]), backends[|backends| - 1];
      if last.ip != "" then init + [last.ip] else init
  }

  function ChosenFor(rows: Rows, cfg: Config): seq<Backend>
  {
    ChosenFrom(cfg.lbMethod, HealthyOf(BackendsOf(rows, cfg.id), rows.states))
  }

  /** The sorted addresses the config should publish. */
  function Desired(rows: Rows, cfg: Config): seq<string> { SortStrings(Addresses(ChosenFor(rows, cfg))) }

  // ---------- Specification: one reconciliation ----------

  datatype ReconcileError = ListBackendsFailed | HealthStatesFailed | UpsertFailed

  /** The config's last_reconcile_error: None is the empty text. */
  type LastError = Option<ReconcileError>

  /** For which configs a store call fails, and for which names a provider call fails. */
  datatype Faults = Faults(
    listBackends: set<string>,
    healthStates: set<string>,
    setError: set<string>,
    upserts: set<string>,
    deletes: set<string>)

  /**
   * cache: the reconciler's lastRecords; zone: what the provider publishes; errors: the column of the
   * configs table. provided: the configs for which a provider resolves, always to this one zone.
   */
  datatype State = State(
    cache: map<string, seq<string>>,
    zone: Mock.Records,
    errors: map<string, LastError>,
    provided: set<string>)

  predicate NeedsUpdate(cache: map<string, seq<string>>, id: string, ips: seq<string>)
  {
    id in cache ==> cache[id] != ips
  }

  predicate UpsertAccepted(cfg: Config, faults: Faults)
  {
    cfg.dnsName !in faults.upserts && cfg.dnsName != "" && cfg.dnsTtl > 0
  }

  predicate DeleteWorks(zone: Mock.Records, name: string, faults: Faults)
  {
    name !in faults.deletes && name != "" && name in zone
  }

  /** updateDNS: the new state, and whether it reports an error. */
  function Updated(s: State, cfg: Config, ips: seq<string>, faults: Faults): (State, LastError)
  {
    if cfg.id !in s.provided then (s, None)
    else if ips == [] then
      var zone := if DeleteWorks(s.zone, cfg.dnsName, faults) then s.zone - {cfg.dnsName} else s.zone;
      (s.(zone := zone, cache := s.cache[cfg.id := ips]), None)
    else if UpsertAccepted(cfg, faults) then
      (s.(zone := s.zone[cfg.dnsName := Mock.MockRecord(cfg.dnsTtl, ips)], cache := s.cache[cfg.id := ips]), None)
    else (s, Some(UpsertFailed))
  }

  /** reconcileConfig. */
  function Reconciled(s: State, rows: Rows, cfg: Config, faults: Faults): (State, LastError)
  {
    if cfg.id in faults.listBackends then (s, Some(ListBackendsFailed))
    else if cfg.id in faults.healthStates then (s, Some(HealthStatesFailed))
    else if !NeedsUpdate(s.cache, cfg.id, Desired(rows, cfg)) then (s, None)
    else Updated(s, cfg, Desired(rows, cfg), faults)
  }

  /**
   * When a reconciliation succeeds, in terms of the tables and the calls: reading must work, and then there is
   * nobody to write to, or nothing to publish, or the list is cached, or the upsert is valid and works.
   */
  lemma {:induction false} OutcomeExactly(s: State, rows: Rows, cfg: Config, faults: Faults)
    ensures Reconciled(s, rows, cfg, faults).1 == None <==>
      && cfg.id !in faults.listBackends && cfg.id !in faults.healthStates
      && (|| cfg.id !in s.provided
          || Desired(rows, cfg) == []
          || (cfg.id in s.cache && s.cache[cfg.id] == Desired(rows, cfg))
          || (cfg.dnsName !in faults.upserts && cfg.dnsName != "" && cfg.dnsTtl > 0))
  {
  }

  /** What a success leaves when the cache did not hold the list: zone and cache, deletions that fail included. */
  lemma {:induction false} WrittenExactly(s: State, rows: Rows, cfg: Config, faults: Faults)
    requires Reconciled(s, rows, cfg, faults).1 == None && cfg.id in s.provided
    requires !(cfg.id in s.cache && s.cache[cfg.id] == Desired(rows, cfg))
    ensures
      var ips, after := Desired(rows, cfg), Reconciled(s, rows, cfg, faults).0;
      && after.cache == s.cache[cfg.id := ips]
      && (ips != [] ==> after.zone == s.zone[cfg.dnsName := Mock.MockRecord(cfg.dnsTtl, ips)])
      && (ips == [] && cfg.dnsName !in faults.deletes && cfg.dnsName != "" ==> after.zone == s.zone - {cfg.dnsName})
      && (ips == [] && (cfg.dnsName in faults.deletes || cfg.dnsName == "") ==> after.zone == s.zone)
  {
  }

  function ErrorRecorded(s: State, id: string, error: LastError, faults: Faults): State
  {
    if id in faults.setError then s else s.(errors := s.errors[id := error])
  }

  /** One turn of ReconcileOnce: reconcile, then record the outcome in the config's error column. */
  function Turn(s: State, rows: Rows, cfg: Config, faults: Faults): State
  {
    var (after, error) := Reconciled(s, rows, cfg, faults);
    ErrorRecorded(after, cfg.id, error, faults)
  }

  function Pass(s: State, rows: Rows, configs: seq<Config>, faults: Faults): State
  {
    if configs == [] then s
    else Turn(Pass(s, rows, configs[..|configs| - 1], faults), rows, configs[|configs| - 1], faults)
  }

  function IdsOf(backends: seq<Backend>): seq<string>
  {
    if backends == [] then [] else IdsOf(backends[..|backends| - 1]) + [backends[|backends| - 1].id]
  }

  /** The backends one reconciliation reports as selected, whether it writes or not. */
  function Selections(rows: Rows, cfg: Config, faults: Faults): seq<string>
  {
    if cfg.id in faults.listBackends || cfg.id in faults.healthStates then [] else IdsOf(ChosenFor(rows, cfg))
  }

  /** Each chosen backend is reported once, in order. */
  lemma {:induction false} IdsOfExactly(backends: seq<Backend>)
    ensures |IdsOf(backends)| == |backends| && forall i | 0 <= i < |backends| :: IdsOf(backends)[i] == backends[i].id
  {
    if backends != [] {
      IdsOfExactly(backends[..|backends| - 1]);
    }
  }

  lemma {:induction false} SelectionsExactly(rows: Rows, cfg: Config, faults: Faults)
    ensures
      var chosen, selected := ChosenFor(rows, cfg), Selections(rows, cfg, faults);
      if cfg.id in faults.listBackends || cfg.id in faults.healthStates then selected == []
      else |selected| == |chosen| && forall i | 0 <= i < |chosen| :: selected[i] == chosen[i].id
  {
    IdsOfExactly(ChosenFor(rows, cfg));
  }

  function PassSelections(rows: Rows, configs: seq<Config>, faults: Faults): seq<string>
  {
    if configs == [] then []
    else PassSelections(rows, configs[..|configs| - 1], faults) + Selections(rows, configs[|configs| - 1], faults)
  }

  // ---------- The reconciler ----------

  class Reconciler {
    const provider: Mock.MockProvider
    var lastRecords: map<string, seq<string>>
    /** The part of the store it works on. */
    var rows: Rows
    var errors: map<string, LastError>
    var provided: set<string>
    /** What the selection callback has been called with. */
    var selected: seq<string>

    constructor (provider: Mock.MockProvider, rows: Rows, provided: set<string>)
      ensures this.provider == provider && this.rows == rows && this.provided == provided
      ensures lastRecords == map[] && errors == map[] && selected == []
    {
      this.provider, this.rows, this.provided := provider, rows, provided;
      lastRecords, errors, selected := map[], map[], [];
    }

    function Abstract(): State
      reads this, provider
    {
      State(lastRecords, provider.records, errors, provided)
    }

    /** None when a store call fails. */
    method GetHealthyBackends(configId: string, faults: Faults) returns (healthy: seq<Backend>, error: LastError)
      ensures error == if configId in faults.listBackends then Some(ListBackendsFailed)
                       else if configId in faults.healthStates then Some(HealthStatesFailed) else None
      ensures error == None ==> healthy == HealthyOf(BackendsOf(rows, configId), rows.states)
    {
      healthy, error := [], None;
      if configId in faults.listBackends {
        return [], Some(ListBackendsFailed);
      }
      var backends := BackendsOf(rows, configId);
      if configId in faults.healthStates {
        return [], Some(HealthStatesFailed);
      }
      for i := 0 to |backends|
        invariant healthy == HealthyOf(backends[..i], rows.states)
      {
        assert backends[..i + 1][..i] == backends[..i];
        if !backends[i].enabled {
          continue;
        }
        if backends[i].id !in rows.states {
          continue;
        }
        if rows.states[backends[i].id].status == Healthy {
          healthy := healthy + [backends[i]];
        }
      }
      assert backends[..|backends|] == backends;
    }

    method ExtractIPs(backends: seq<Backend>) returns (ips: seq<string>)
      ensures ips == SortStrings(Addresses(backends))
    {
      ips := [];
      for i := 0 to |backends|
        invariant ips == Addresses(backends[..i])
      {
        assert backends[..i + 1][..i] == backends[..i];
        if backends[i].ip != "" {
          ips := ips + [backends[i].ip];
        }
      }
      assert backends[..|backends|] == backends;
      ips := SortStrings(ips);
    }

    method NeedsDnsUpdate(configId: string, newIPs: seq<string>) returns (needed: bool)
      ensures needed <==> NeedsUpdate(lastRecords, configId, newIPs)
    {
      if configId !in lastRecords {
        return true;
      }
      var lastIPs := lastRecords[configId];
      if |lastIPs| != |newIPs| {
        return true;
      }
      for i := 0 to |lastIPs|
        invariant lastIPs[..i] == newIPs[..i]
      {
        if lastIPs[i] != newIPs[i] {
          return true;
        }
      }
      assert lastIPs[..|lastIPs|] == lastIPs && newIPs[..|newIPs|] == newIPs;
      return false;
    }

    method UpdateDNS(cfg: Config, backends: seq<Backend>, faults: Faults) returns (error: LastError)
      modifies this`lastRecords, provider
      ensures (Abstract(), error) == Updated(old(Abstract()), cfg, SortStrings(Addresses(backends)), faults)
    {
      if cfg.id !in provided {
        return None;
      }
      var ips := ExtractIPs(backends);
      if |ips| == 0 {
        if cfg.dnsName !in faults.deletes {
          var _ := provider.DeleteRecord(cfg.dnsName);
        }
      } else {
        if cfg.dnsName in faults.upserts {
          return Some(UpsertFailed);
        }
        NoEmptyAddress(backends);
        var outcome := provider.UpsertRecord(UpsertRequest(cfg.dnsName, cfg.dnsTtl, ips));
        if outcome.Err? {
          return Some(UpsertFailed);
        }
      }
      lastRecords := lastRecords[cfg.id := ips];
      return None;
    }

    method NotifySelected(backends: seq<Backend>)
      modifies this`selected
      ensures selected == old(selected) + IdsOf(backends)
    {
      for i := 0 to |backends|
        invariant selected == old(selected) + IdsOf(backends[..i])
      {
        assert backends[..i + 1][..i] == backends[..i];
        selected := selected + [backends[i].id];
      }
      assert backends[..|backends|] == backends;
    }

    method ReconcileConfig(cfg: Config, faults: Faults) returns (error: LastError)
      modifies this`lastRecords, this`selected, provider
      ensures selected == old(selected) + Selections(rows, cfg, faults)
      ensures (Abstract(), error) == Reconciled(old(Abstract()), rows, cfg, faults)
    {
      var healthy;
      healthy, error := GetHealthyBackends(cfg.id, faults);
      if error.Some? {
        return;
      }
      var backendsForDNS := healthy;
      if cfg.lbMethod.Weighted? {
        var b := Failover.SelectWeighted(healthy);
        backendsForDNS := if b.Some? then [healthy[b.value]] else [];
      }
      NotifySelected(backendsForDNS);
      var ips := ExtractIPs(backendsForDNS);
      var needed := NeedsDnsUpdate(cfg.id, ips);
      if !needed {
        return None;
      }
      error := UpdateDNS(cfg, backendsForDNS, faults);
    }

    method SetConfigReconcileError(id: string, error: LastError, faults: Faults)
      modifies this`errors
      ensures Abstract() == ErrorRecorded(old(Abstract()), id, error, faults)
    {
      if id !in faults.setError {
        errors := errors[id := error];
      }
    }

    /** One pass over the listed configs. Only a failed listing is an error of the pass, and then nothing happens. */
    method ReconcileOnce(configs: Option<seq<Config>>, faults: Faults) returns (ok: bool)
      modifies this`lastRecords, this`errors, this`selected, provider
      ensures ok <==> configs.Some?
      ensures selected == old(selected) + (if configs.None? then [] else PassSelections(rows, configs.value, faults))
      ensures Abstract() == if configs.None? then old(Abstract())
        else Pass(old(Abstract()), rows, configs.value, faults)
    {
      if configs.None? {
        return false;
      }
      ghost var start := Abstract();
      var list := configs.value;
      for i := 0 to |list|
        invariant rows == old(rows)
        invariant Abstract() == Pass(start, rows, list[..i], faults)
        invariant selected == old(selected) + PassSelections(rows, list[..i], faults)
      {
        assert list[..i + 1][..i] == list[..i];
        var error := ReconcileConfig(list[i], faults);
        SetConfigReconcileError(list[i].id, error, faults);
      }
      assert list[..|list|] == list;
      return true;
    }
  }

  lemma {:induction false} AddressesNotEmpty(backends: seq<Backend>)
    ensures "" !in Addresses(backends)
  {
    if backends != [] {
      AddressesNotEmpty(backends[..|backends| - 1]);
    }
  }

  lemma NoEmptyAddress(backends: seq<Backend>)
    ensures "" !in SortStrings(Addresses(backends))
  {
    AddressesNotEmpty(backends);
    SortStringsSorts(Addresses(backends));
    assert "" in SortStrings(Addresses(backends)) <==> "" in multiset(Addresses(backends));
  }

  /** How often an address occurs among backends. */
  function Occurrences(backends: seq<Backend>, ip: string): nat
  {
    if backends == [] then 0 else
      Occurrences(backends[..|backends| - 1], ip) + (if backends[|backends| - 1].ip == ip then 1 else 0)
  }

  lemma {:induction false} AddressesKeepRepeats(backends: seq<Backend>, ip: string)
    requires ip != ""
    ensures multiset(Addresses(backends))[ip] == Occurrences(backends, ip)
  {
    if backends != [] {
      AddressesKeepRepeats(backends[..|backends| - 1], ip);
    }
  }

  /** The desired list names an address as often as there are chosen backends with it, and nothing empty. */
  lemma {:induction false} DesiredKeepsRepeats(rows: Rows, cfg: Config, ip: string)
    requires ip != ""
    ensures multiset(Desired(rows, cfg))[ip] == Occurrences(ChosenFor(rows, cfg), ip)
    ensures "" !in Desired(rows, cfg) && Sorted(Desired(rows, cfg))
  {
    AddressesKeepRepeats(ChosenFor(rows, cfg), ip);
    SortStringsSorts(Addresses(ChosenFor(rows, cfg)));
    NoEmptyAddress(ChosenFor(rows, cfg));
  }

  /** A pass reports what its configs' reconciliations report, one after the other. */
  lemma {:induction false} PassSelectionsExactly(rows: Rows, configs: seq<Config>, faults: Faults, id: string)
    ensures id in PassSelections(rows, configs, faults) <==>
      exists i | 0 <= i < |configs| :: id in Selections(rows, configs[i], faults)
  {
    if configs != [] {
      var init, last := configs[..|configs| - 1], configs[|configs| - 1];
      PassSelectionsExactly(rows, init, faults, id);
      assert forall i | 0 <= i < |init| :: init[i] == configs[i];
    }
  }
}
