/** The cache against the zone, and a pass over many configs against each of them alone. */
module ReconcilerProperties {
  import opened Types
  import opened Sorting
  import opened Reconciler
  import Mock = MockProvider

  // ---------- The cache and the zone ----------

  /** The name publishes exactly these addresses: no record iff there are none. */
  predicate Publishes(zone: Mock.Records, name: string, ips: seq<string>)
  {
    if ips == [] then name !in zone else name in zone && zone[name].ips == ips
  }

  /** If the cache holds the config, it holds what the zone publishes under its name. */
  predicate CacheMatches(s: State, cfg: Config)
  {
    cfg.id in s.cache ==> Publishes(s.zone, cfg.dnsName, s.cache[cfg.id])
  }

  /** The delete that updateDNS would make fails, or finds its error swallowed, with a record in place. */
  predicate DeleteSwallowed(s: State, cfg: Config, ips: seq<string>, faults: Faults)
  {
    ips == [] && cfg.dnsName in s.zone && !DeleteWorks(s.zone, cfg.dnsName, faults)
  }

  /** The reconciliation gets as far as writing the cache. */
  predicate WritesCache(s: State, rows: Rows, cfg: Config, faults: Faults)
  {
    && cfg.id in s.provided && NeedsUpdate(s.cache, cfg.id, Desired(rows, cfg))
    && Reconciled(s, rows, cfg, faults).1 == None
  }

  /**
   * A written cache agrees with the zone iff no deletion was swallowed, whatever was there before; a list has
   * the TTL.
   */
  lemma {:induction false} WriteExactly(s: State, rows: Rows, cfg: Config, faults: Faults)
    requires WritesCache(s, rows, cfg, faults)
    ensures
      var ips, after := Desired(rows, cfg), Reconciled(s, rows, cfg, faults).0;
      && (Publishes(after.zone, cfg.dnsName, ips) <==> !DeleteSwallowed(s, cfg, ips, faults))
      && cfg.id in after.cache && after.cache[cfg.id] == ips
      && (ips != [] ==> cfg.dnsName in after.zone && after.zone[cfg.dnsName] == Mock.MockRecord(cfg.dnsTtl, ips))
  {
  }

  /** Otherwise neither cache nor zone has changed. */
  lemma {:induction false} NoWriteNoChange(s: State, rows: Rows, cfg: Config, faults: Faults)
    requires !WritesCache(s, rows, cfg, faults)
    ensures Reconciled(s, rows, cfg, faults).0 == s
  {
  }

  /**
   * A wrong zone, however it came to be, is put right by a reconciliation that reports success iff the cache
   * does not hold the desired list and no deletion is swallowed.
   */
  lemma {:induction false} RepairedExactly(s: State, rows: Rows, cfg: Config, faults: Faults)
    requires cfg.id in s.provided && Reconciled(s, rows, cfg, faults).1 == None
    requires !Publishes(s.zone, cfg.dnsName, Desired(rows, cfg))
    ensures
      var ips := Desired(rows, cfg);
      Publishes(Reconciled(s, rows, cfg, faults).0.zone, cfg.dnsName, ips) <==>
        NeedsUpdate(s.cache, cfg.id, ips) && !DeleteSwallowed(s, cfg, ips, faults)
  {
    if WritesCache(s, rows, cfg, faults) {
      WriteExactly(s, rows, cfg, faults);
    } else {
      NoWriteNoChange(s, rows, cfg, faults);
    }
  }

  /** The order of the listing is irrelevant for methods other than weighted: only the addresses count. */
  lemma DesiredIgnoresListingOrder(rows: Rows, rows': Rows, cfg: Config)
    requires multiset(Addresses(ChosenFor(rows, cfg))) == multiset(Addresses(ChosenFor(rows', cfg)))
    ensures Desired(rows, cfg) == Desired(rows', cfg)
  {
    SameElementsSortAlike(Addresses(ChosenFor(rows, cfg)), Addresses(ChosenFor(rows', cfg)));
  }

  // ---------- A pass over many configs ----------

  function Lookup<V>(m: map<string, V>, key: string): Option<V> { if key in m then Some(m[key]) else None }

  /** All that a config's turn may read or write. */
  datatype Slot = Slot(cached: Option<seq<string>>, published: Option<Mock.MockRecord>, error: Option<LastError>)

  function SlotOf(s: State, cfg: Config): Slot
  {
    Slot(Lookup(s.cache, cfg.id), Lookup(s.zone, cfg.dnsName), Lookup(s.errors, cfg.id))
  }

  /** Configs differ in ID and, by the unique column, in DNS name. */
  predicate Separate(configs: seq<Config>)
  {
    forall i, j | 0 <= i < j < |configs| :: configs[i].id != configs[j].id && configs[i].dnsName != configs[j].dnsName
  }

  lemma UpdateIsLocal(s: State, t: State, cfg: Config, ips: seq<string>, faults: Faults)
    requires SlotOf(s, cfg) == SlotOf(t, cfg) && s.provided == t.provided
    ensures
      var (s', e) := Updated(s, cfg, ips, faults);
      var (t', f) := Updated(t, cfg, ips, faults);
      e == f && SlotOf(s', cfg) == SlotOf(t', cfg)
  {
    assert cfg.dnsName in s.zone <==> cfg.dnsName in t.zone by {
      assert cfg.dnsName in s.zone <==> Lookup(s.zone, cfg.dnsName).Some?;
      assert cfg.dnsName in t.zone <==> Lookup(t.zone, cfg.dnsName).Some?;
    }
  }

  lemma SameNeed(s: State, t: State, cfg: Config, ips: seq<string>)
    requires Lookup(s.cache, cfg.id) == Lookup(t.cache, cfg.id)
    ensures NeedsUpdate(s.cache, cfg.id, ips) == NeedsUpdate(t.cache, cfg.id, ips)
  {
  }

  lemma {:induction false} TurnIsLocal(s: State, t: State, rows: Rows, cfg: Config, faults: Faults)
    requires SlotOf(s, cfg) == SlotOf(t, cfg) && s.provided == t.provided
    ensures SlotOf(Turn(s, rows, cfg, faults), cfg) == SlotOf(Turn(t, rows, cfg, faults), cfg)
    ensures Reconciled(s, rows, cfg, faults).1 == Reconciled(t, rows, cfg, faults).1
  {
    var ips := Desired(rows, cfg);
    UpdateIsLocal(s, t, cfg, ips, faults);
    SameNeed(s, t, cfg, ips);
    assert SlotOf(Reconciled(s, rows, cfg, faults).0, cfg) == SlotOf(Reconciled(t, rows, cfg, faults).0, cfg);
  }

  lemma {:induction false} UpdateLeavesOthers(
    s: State, cfg: Config, ips: seq<string>, faults: Faults, id: string, name: string)
    ensures
      var after := Updated(s, cfg, ips, faults).0;
      && after.provided == s.provided && after.errors == s.errors
      && (id != cfg.id ==> Lookup(after.cache, id) == Lookup(s.cache, id))
      && (name != cfg.dnsName ==> Lookup(after.zone, name) == Lookup(s.zone, name))
  {
  }

  lemma {:induction false} TurnLeavesOthers(s: State, rows: Rows, cfg: Config, faults: Faults, id: string, name: string)
    ensures
      var after := Turn(s, rows, cfg, faults);
      && after.provided == s.provided
      && (id != cfg.id ==>
            Lookup(after.cache, id) == Lookup(s.cache, id) && Lookup(after.errors, id) == Lookup(s.errors, id))
      && (name != cfg.dnsName ==> Lookup(after.zone, name) == Lookup(s.zone, name))
  {
    UpdateLeavesOthers(s, cfg, Desired(rows, cfg), faults, id, name);
  }

  lemma {:induction false} PassLeavesOthers(
    s: State, rows: Rows, configs: seq<Config>, faults: Faults, id: string, name: string)
    ensures
      var after := Pass(s, rows, configs, faults);
      && after.provided == s.provided
      && ((forall i | 0 <= i < |configs| :: configs[i].id != id) ==>
            Lookup(after.cache, id) == Lookup(s.cache, id) && Lookup(after.errors, id) == Lookup(s.errors, id))
      && ((forall i | 0 <= i < |configs| :: configs[i].dnsName != name) ==>
            Lookup(after.zone, name) == Lookup(s.zone, name))
  {
    if configs != [] {
      var init, last := configs[..|configs| - 1], configs[|configs| - 1];
      PassLeavesOthers(s, rows, init, faults, id, name);
      TurnLeavesOthers(Pass(s, rows, init, faults), rows, last, faults, id, name);
      assert forall i | 0 <= i < |init| :: init[i] == configs[i];
    }
  }

  /** Pass isolation: a pass treats each config as if it were the only one. */
  lemma {:induction false} PassIsolation(s: State, rows: Rows, configs: seq<Config>, faults: Faults, i: nat)
    requires Separate(configs) && i < |configs|
    ensures SlotOf(Pass(s, rows, configs, faults), configs[i]) == SlotOf(Turn(s, rows, configs[i], faults), configs[i])
  {
    var last, cfg := |configs| - 1, configs[i];
    var before := Pass(s, rows, configs[..last], faults);
    if i == last {
      PassLeavesOthers(s, rows, configs[..last], faults, cfg.id, cfg.dnsName);
      TurnIsLocal(before, s, rows, cfg, faults);
    } else {
      PassIsolation(s, rows, configs[..last], faults, i);
      TurnLeavesOthers(before, rows, configs[last], faults, cfg.id, cfg.dnsName);
    }
  }

  /** After a pass a config's error field is empty iff its own reconciliation, run alone, succeeds. */
  lemma ErrorTellsOwnOutcome(s: State, rows: Rows, configs: seq<Config>, faults: Faults, i: nat)
    requires Separate(configs) && i < |configs| && configs[i].id !in faults.setError
    ensures
      var after, id := Pass(s, rows, configs, faults), configs[i].id;
      id in after.errors && after.errors[id] == Reconciled(s, rows, configs[i], faults).1
  {
    PassIsolation(s, rows, configs, faults, i);
    assert Lookup(Pass(s, rows, configs, faults).errors, configs[i].id)
        == Lookup(Turn(s, rows, configs[i], faults).errors, configs[i].id);
  }

  lemma SameLookups<V>(a: map<string, V>, b: map<string, V>)
    requires forall key :: Lookup(a, key) == Lookup(b, key)
    ensures a == b
  {
    forall key
      ensures key in a <==> key in b
      ensures key in a && key in b ==> a[key] == b[key]
    {
      assert Lookup(a, key) == Lookup(b, key);
    }
  }

  /** Two orders of the same configs agree on every key of cache and errors, and on every name. */
  lemma {:induction false} OrdersAgreeAt(
    s: State, rows: Rows, a: seq<Config>, b: seq<Config>, faults: Faults, id: string, name: string)
    requires Separate(a) && Separate(b) && forall cfg :: cfg in a <==> cfg in b
    ensures
      var s1, s2 := Pass(s, rows, a, faults), Pass(s, rows, b, faults);
      && s1.provided == s2.provided
      && Lookup(s1.cache, id) == Lookup(s2.cache, id) && Lookup(s1.errors, id) == Lookup(s2.errors, id)
      && Lookup(s1.zone, name) == Lookup(s2.zone, name)
  {
    PassLeavesOthers(s, rows, a, faults, id, name);
    PassLeavesOthers(s, rows, b, faults, id, name);
    if i :| 0 <= i < |a| && a[i].id == id {
      assert a[i] in b;
      var j :| 0 <= j < |b| && b[j] == a[i];
      PassIsolation(s, rows, a, faults, i);
      PassIsolation(s, rows, b, faults, j);
    } else {
      assert forall j | 0 <= j < |b| :: b[j] in a;
    }
    if i :| 0 <= i < |a| && a[i].dnsName == name {
      assert a[i] in b;
      var j :| 0 <= j < |b| && b[j] == a[i];
      PassIsolation(s, rows, a, faults, i);
      PassIsolation(s, rows, b, faults, j);
    } else {
      assert forall j | 0 <= j < |b| :: b[j] in a;
    }
  }

  /** For any fixed faults, a pass ends in the same state for every order of the configs. */
  lemma PassOrderIsIrrelevant(s: State, rows: Rows, a: seq<Config>, b: seq<Config>, faults: Faults)
    requires Separate(a) && Separate(b) && forall cfg :: cfg in a <==> cfg in b
    ensures Pass(s, rows, a, faults) == Pass(s, rows, b, faults)
  {
    var s1, s2 := Pass(s, rows, a, faults), Pass(s, rows, b, faults);
    forall key
      ensures Lookup(s1.cache, key) == Lookup(s2.cache, key)
      ensures Lookup(s1.zone, key) == Lookup(s2.zone, key)
      ensures Lookup(s1.errors, key) == Lookup(s2.errors, key)
      ensures s1.provided == s2.provided
    {
      OrdersAgreeAt(s, rows, a, b, faults, key, key);
    }
    SameLookups(s1.cache, s2.cache);
    SameLookups(s1.zone, s2.zone);
    SameLookups(s1.errors, s2.errors);
    OrdersAgreeAt(s, rows, a, b, faults, "", "");
  }

  // ---------- Where the guarantees end ----------

  /**
   * Once the cache holds the desired list, no reconciliation ever repairs the zone, however it was
   * changed: by hand, by a cut-off upsert, or by a swallowed delete.
   */
  lemma MatchingCacheHidesZone(s: State, rows: Rows, cfg: Config, faults: Faults, zone: Mock.Records)
    requires cfg.id in s.cache && s.cache[cfg.id] == Desired(rows, cfg)
    requires cfg.id !in faults.listBackends && cfg.id !in faults.healthStates
    ensures Reconciled(s.(zone := zone), rows, cfg, faults) == (s.(zone := zone), None)
  {
  }

  lemma {:induction false} RenamedDesired(rows: Rows, cfg: Config, name: string)
    ensures Desired(rows, cfg.(dnsName := name)) == Desired(rows, cfg)
  {
    assert ChosenFor(rows, cfg.(dnsName := name)) == ChosenFor(rows, cfg);
  }

  /**
   * A config renamed to a name without records is published under it by a success iff the cache holds another
   * list than the desired one; otherwise nothing changes, and what was published under the old name stays.
   */
  lemma {:induction false} RenamedIsPublishedExactly(s: State, rows: Rows, cfg: Config, faults: Faults, name: string)
    requires cfg.id in s.provided && name !in s.zone && Desired(rows, cfg) != []
    requires Reconciled(s, rows, cfg.(dnsName := name), faults).1 == None
    ensures
      var (after, _) := Reconciled(s, rows, cfg.(dnsName := name), faults);
      && (Publishes(after.zone, name, Desired(rows, cfg)) <==> NeedsUpdate(s.cache, cfg.id, Desired(rows, cfg)))
      && (!NeedsUpdate(s.cache, cfg.id, Desired(rows, cfg)) ==> after == s)
      && (name != cfg.dnsName ==> Lookup(after.zone, cfg.dnsName) == Lookup(s.zone, cfg.dnsName))
  {
    RenamedDesired(rows, cfg, name);
    RepairedExactly(s, rows, cfg.(dnsName := name), faults);
    TurnLeavesOthers(s, rows, cfg.(dnsName := name), faults, cfg.id, cfg.dnsName);
  }
}
