/**
 * Reconciliations of one config that run at the same time: each reads the cache, writes the zone and writes
 * the cache, and only the single reads and writes exclude each other (internal/dns/reconciler.go).
 */
module Interleaving {
  import opened Types
  import R = Reconciler
  import P = ReconcilerProperties
  import Mock = MockProvider

  // ---------- The steps ----------

  /** About to read the cache, to write the zone, to write the cache, or through. */
  datatype Phase = Reading | Writing | Storing | Through

  /** zoneOrder, cacheOrder: which reconciliations have written zone and cache, in order. */
  datatype Race = Race(
    zone: Mock.Records,
    cache: map<string, seq<string>>,
    phases: seq<Phase>,
    zoneOrder: seq<nat>,
    cacheOrder: seq<nat>)

  /** lists: the addresses each reconciliation wants; unresolved: who finds no provider; failing: whose call fails. */
  datatype Setting = Setting(cfg: Config, lists: seq<seq<string>>, unresolved: set<nat>, failing: set<nat>)

  /** A failed deletion goes unnoticed: the cache is written although the zone was not. */
  predicate Swallows(setting: Setting, k: nat)
    requires k < |setting.lists|
  {
    setting.lists[k] == [] && k in setting.failing
  }

  function Written(zone: Mock.Records, cfg: Config, ips: seq<string>): Mock.Records
  {
    if ips == [] then zone - {cfg.dnsName} else zone[cfg.dnsName := Mock.MockRecord(cfg.dnsTtl, ips)]
  }

  /** The next step of the k-th reconciliation. */
  function Step(setting: Setting, r: Race, k: nat): Race
    requires k < |setting.lists| == |r.phases|
  {
    var cfg, ips := setting.cfg, setting.lists[k];
    match r.phases[k]
    case Reading => r.(phases := r.phases[k := if R.NeedsUpdate(r.cache, cfg.id, ips) then Writing else Through])
    case Writing =>
      if k in setting.unresolved || (ips != [] && k in setting.failing) then r.(phases := r.phases[k := Through])
      else if Swallows(setting, k) then r.(phases := r.phases[k := Storing])
      else r.(zone := Written(r.zone, cfg, ips), phases := r.phases[k := Storing], zoneOrder := r.zoneOrder + [k])
    case Storing =>
      r.(cache := r.cache[cfg.id := ips], phases := r.phases[k := Through], cacheOrder := r.cacheOrder + [k])
    case Through => r
  }

  function Waiting(n: nat): (phases: seq<Phase>)
    ensures |phases| == n && forall k | 0 <= k < n :: phases[k] == Reading
  {
    if n == 0 then [] else Waiting(n - 1) + [Reading]
  }

  function Start(s: R.State, n: nat): Race { Race(s.zone, s.cache, Waiting(n), [], []) }

  /** The schedule says whose step comes next. */
  function Play(setting: Setting, s: R.State, schedule: seq<nat>): (r: Race)
    requires forall i | 0 <= i < |schedule| :: schedule[i] < |setting.lists|
    ensures |r.phases| == |setting.lists|
  {
    if schedule == [] then Start(s, |setting.lists|)
    else Step(setting, Play(setting, s, schedule[..|schedule| - 1]), schedule[|schedule| - 1])
  }

  /** Back in the reconciler. */
  function After(s: R.State, r: Race): R.State { s.(zone := r.zone, cache := r.cache) }

  // ---------- What every schedule keeps ----------

  predicate NoRepeats(order: seq<nat>)
  {
    forall i, j | 0 <= i < j < |order| :: order[i] != order[j]
  }

  predicate InRange(order: seq<nat>, n: nat)
  {
    forall i | 0 <= i < |order| :: order[i] < n
  }

  /** The orders fit the phases. */
  predicate Sound(setting: Setting, r: Race)
  {
    && |r.phases| == |setting.lists|
    && InRange(r.zoneOrder, |r.phases|) && NoRepeats(r.zoneOrder)
    && InRange(r.cacheOrder, |r.phases|) && NoRepeats(r.cacheOrder)
    && forall k | 0 <= k < |r.phases| ::
      && (k in r.zoneOrder ==> r.phases[k].Storing? || r.phases[k].Through?)
      && (r.phases[k].Storing? ==> (k in r.zoneOrder || Swallows(setting, k)) && k !in r.cacheOrder)
      && (k in r.cacheOrder ==> r.phases[k].Through? && (k in r.zoneOrder || Swallows(setting, k)))
      && (r.phases[k].Through? && k in r.zoneOrder ==> k in r.cacheOrder)
  }

  /** The latest of an order decides, and before there is one, the start. */
  predicate ZoneShown(setting: Setting, s: R.State, r: Race)
    requires InRange(r.zoneOrder, |setting.lists|)
  {
    if r.zoneOrder == [] then P.Lookup(r.zone, setting.cfg.dnsName) == P.Lookup(s.zone, setting.cfg.dnsName)
    else P.Publishes(r.zone, setting.cfg.dnsName, setting.lists[r.zoneOrder[|r.zoneOrder| - 1]])
  }

  predicate CacheShown(setting: Setting, s: R.State, r: Race)
    requires InRange(r.cacheOrder, |setting.lists|)
  {
    if r.cacheOrder == [] then P.Lookup(r.cache, setting.cfg.id) == P.Lookup(s.cache, setting.cfg.id)
    else setting.cfg.id in r.cache && r.cache[setting.cfg.id] == setting.lists[r.cacheOrder[|r.cacheOrder| - 1]]
  }

  lemma {:induction false} OneMoreInOrder(order: seq<nat>, n: nat, k: nat)
    requires NoRepeats(order) && InRange(order, n) && k !in order && k < n
    ensures NoRepeats(order + [k]) && InRange(order + [k], n)
    ensures forall i :: i in order + [k] <==> i in order || i == k
  {
  }

  lemma {:induction false} WritingKeepsSound(setting: Setting, r: Race, k: nat)
    requires k < |setting.lists| && Sound(setting, r) && r.phases[k] == Writing
    ensures Sound(setting, Step(setting, r, k))
  {
    OneMoreInOrder(r.zoneOrder, |setting.lists|, k);
  }

  lemma {:induction false} StoringKeepsSound(setting: Setting, r: Race, k: nat)
    requires k < |setting.lists| && Sound(setting, r) && r.phases[k] == Storing
    ensures Sound(setting, Step(setting, r, k))
  {
    OneMoreInOrder(r.cacheOrder, |setting.lists|, k);
  }

  lemma {:induction false} StepKeepsSound(setting: Setting, r: Race, k: nat)
    requires k < |setting.lists| && Sound(setting, r)
    ensures Sound(setting, Step(setting, r, k))
  {
    match r.phases[k]
    case Writing => WritingKeepsSound(setting, r, k);
    case Storing => StoringKeepsSound(setting, r, k);
    case _ =>
  }

  lemma {:induction false} StepKeepsZoneShown(setting: Setting, s: R.State, r: Race, k: nat)
    requires k < |setting.lists| && Sound(setting, r) && Sound(setting, Step(setting, r, k))
    requires ZoneShown(setting, s, r)
    ensures ZoneShown(setting, s, Step(setting, r, k))
  {
  }

  lemma {:induction false} StepKeepsCacheShown(setting: Setting, s: R.State, r: Race, k: nat)
    requires k < |setting.lists| && Sound(setting, r) && Sound(setting, Step(setting, r, k))
    requires CacheShown(setting, s, r)
    ensures CacheShown(setting, s, Step(setting, r, k))
  {
  }

  lemma {:induction false} PlayIsSound(setting: Setting, s: R.State, schedule: seq<nat>)
    requires forall i | 0 <= i < |schedule| :: schedule[i] < |setting.lists|
    ensures
      var r := Play(setting, s, schedule);
      Sound(setting, r) && ZoneShown(setting, s, r) && CacheShown(setting, s, r)
  {
    if schedule != [] {
      var before, k := schedule[..|schedule| - 1], schedule[|schedule| - 1];
      PlayIsSound(setting, s, before);
      StepKeepsSound(setting, Play(setting, s, before), k);
      StepKeepsZoneShown(setting, s, Play(setting, s, before), k);
      StepKeepsCacheShown(setting, s, Play(setting, s, before), k);
    }
  }

  // ---------- When cache and zone disagree afterwards ----------

  /** Nobody has written the zone and not yet the cache. */
  predicate Settled(r: Race)
  {
    forall k | 0 <= k < |r.phases| :: r.phases[k] != Storing
  }

  lemma {:induction false} PublishesOne(zone: Mock.Records, name: string, a: seq<string>, b: seq<string>)
    requires P.Publishes(zone, name, a)
    ensures P.Publishes(zone, name, b) <==> a == b
  {
  }

  lemma {:induction false} SameMatch(s: R.State, t: R.State, cfg: Config)
    requires P.Lookup(s.cache, cfg.id) == P.Lookup(t.cache, cfg.id)
    requires P.Lookup(s.zone, cfg.dnsName) == P.Lookup(t.zone, cfg.dnsName)
    ensures P.CacheMatches(s, cfg) <==> P.CacheMatches(t, cfg)
  {
    assert cfg.id in s.cache <==> P.Lookup(s.cache, cfg.id).Some?;
    assert cfg.id in t.cache <==> P.Lookup(t.cache, cfg.id).Some?;
    assert cfg.dnsName in s.zone <==> P.Lookup(s.zone, cfg.dnsName).Some?;
    assert cfg.dnsName in t.zone <==> P.Lookup(t.zone, cfg.dnsName).Some?;
  }

  lemma {:induction false} SettledOrders(setting: Setting, r: Race)
    requires Sound(setting, r) && Settled(r)
    ensures forall k: nat | k in r.zoneOrder :: k in r.cacheOrder
    ensures r.cacheOrder == [] ==> r.zoneOrder == []
  {
    forall k: nat | k in r.zoneOrder
      ensures k in r.cacheOrder
    {
      assert k < |r.phases|;
    }
    assert r.zoneOrder != [] ==> r.zoneOrder[0] in r.zoneOrder;
  }

  function Latest(order: seq<nat>): nat
    requires order != []
  {
    order[|order| - 1]
  }

  /** Nobody wrote the zone, but the cache was written: all who did swallowed a deletion. */
  lemma {:induction false} OnlySwallowed(setting: Setting, s: R.State, r: Race)
    requires Sound(setting, r) && ZoneShown(setting, s, r) && CacheShown(setting, s, r)
    requires r.zoneOrder == [] && r.cacheOrder != []
    ensures P.CacheMatches(After(s, r), setting.cfg) <==> setting.cfg.dnsName !in s.zone
  {
    assert Latest(r.cacheOrder) in r.cacheOrder;
    assert setting.lists[Latest(r.cacheOrder)] == [];
    assert setting.cfg.dnsName in s.zone <==> P.Lookup(s.zone, setting.cfg.dnsName).Some?;
    assert setting.cfg.dnsName in r.zone <==> P.Lookup(r.zone, setting.cfg.dnsName).Some?;
  }

  /**
   * For any number of reconciliations, any failing calls and any schedule: once every zone write has been
   * followed by its cache write, cache and zone agree iff the last to write the zone and the last to write the
   * cache wanted the same list; if only swallowed deletions wrote the cache, iff nothing was published to
   * begin with; if nobody wrote, iff they agreed before.
   */
  lemma {:induction false} AgreeExactly(setting: Setting, s: R.State, schedule: seq<nat>)
    requires forall i | 0 <= i < |schedule| :: schedule[i] < |setting.lists|
    requires Settled(Play(setting, s, schedule))
    ensures
      var r := Play(setting, s, schedule);
      var agree := P.CacheMatches(After(s, r), setting.cfg);
      if r.cacheOrder == [] then r.zoneOrder == [] && (agree <==> P.CacheMatches(s, setting.cfg))
      else if r.zoneOrder == [] then agree <==> setting.cfg.dnsName !in s.zone
      else
        && Latest(r.zoneOrder) < |setting.lists| && Latest(r.cacheOrder) < |setting.lists|
        && (agree <==> setting.lists[Latest(r.zoneOrder)] == setting.lists[Latest(r.cacheOrder)])
  {
    var r := Play(setting, s, schedule);
    PlayIsSound(setting, s, schedule);
    SettledOrders(setting, r);
    if r.cacheOrder == [] {
      SameMatch(s, After(s, r), setting.cfg);
    } else if r.zoneOrder == [] {
      OnlySwallowed(setting, s, r);
    } else {
      PublishesOne(r.zone, setting.cfg.dnsName, setting.lists[Latest(r.zoneOrder)],
        setting.lists[Latest(r.cacheOrder)]);
    }
  }

  /** Of two, each having written both or neither, the orders are equal or opposite. */
  lemma {:induction false} OrdersOfTwo(r: Race)
    requires NoRepeats(r.zoneOrder) && NoRepeats(r.cacheOrder)
    requires forall k: nat :: k in r.zoneOrder <==> k in r.cacheOrder
    requires InRange(r.zoneOrder, 2) && InRange(r.cacheOrder, 2)
    ensures r.zoneOrder == r.cacheOrder || (r.zoneOrder, r.cacheOrder) in {([0, 1], [1, 0]), ([1, 0], [0, 1])}
  {
    ShortOrder(r.zoneOrder);
    ShortOrder(r.cacheOrder);
    assert 0 in r.zoneOrder <==> 0 in r.cacheOrder;
    assert 1 in r.zoneOrder <==> 1 in r.cacheOrder;
  }

  lemma {:induction false} ThreeOfTwoRepeat(order: seq<nat>)
    requires |order| > 2 && InRange(order, 2)
    ensures order[0] == order[1] || order[0] == order[2] || order[1] == order[2]
  {
  }

  lemma {:induction false} ShortOrder(order: seq<nat>)
    requires NoRepeats(order) && InRange(order, 2)
    ensures order == [] || order == [0] || order == [1] || order == [0, 1] || order == [1, 0]
  {
    if |order| > 2 {
      ThreeOfTwoRepeat(order);
    }
  }

  /**
   * Two reconciliations that started from an agreeing cache, neither having swallowed a deletion, leave it
   * disagreeing iff their cache writes came in the other order than their zone writes and their lists differ.
   */
  lemma {:induction false} TwoDisagreeExactly(setting: Setting, s: R.State, schedule: seq<nat>)
    requires |setting.lists| == 2 && P.CacheMatches(s, setting.cfg)
    requires forall i | 0 <= i < |schedule| :: schedule[i] < 2
    requires Settled(Play(setting, s, schedule))
    ensures
      var r := Play(setting, s, schedule);
      (forall k: nat | k in r.cacheOrder :: k in r.zoneOrder) ==>
        (!P.CacheMatches(After(s, r), setting.cfg) <==>
           r.zoneOrder != r.cacheOrder && setting.lists[0] != setting.lists[1])
  {
    var r := Play(setting, s, schedule);
    PlayIsSound(setting, s, schedule);
    SettledOrders(setting, r);
    AgreeExactly(setting, s, schedule);
    if forall k: nat | k in r.cacheOrder :: k in r.zoneOrder {
      OrdersOfTwo(r);
      assert r.cacheOrder != [] ==> r.cacheOrder[0] in r.cacheOrder;
    }
  }

  lemma {:induction false} PlaySnoc(setting: Setting, s: R.State, schedule: seq<nat>, k: nat)
    requires k < |setting.lists| && forall i | 0 <= i < |schedule| :: schedule[i] < |setting.lists|
    ensures Play(setting, s, schedule + [k]) == Step(setting, Play(setting, s, schedule), k)
  {
    assert (schedule + [k])[..|schedule|] == schedule;
  }

  lemma {:induction false} FindsWork(setting: Setting, s: R.State, schedule: seq<nat>, k: nat, r: Race)
    requires k < |setting.lists| == |r.phases| && r.phases[k] == Reading
    requires R.NeedsUpdate(r.cache, setting.cfg.id, setting.lists[k])
    requires forall i | 0 <= i < |schedule| :: schedule[i] < |setting.lists|
    requires Play(setting, s, schedule) == r
    ensures Play(setting, s, schedule + [k]) == r.(phases := r.phases[k := Writing])
  {
    PlaySnoc(setting, s, schedule, k);
  }

  lemma {:induction false} BothFindWork(setting: Setting, s: R.State) returns (schedule: seq<nat>)
    requires |setting.lists| == 2
    requires forall k | 0 <= k < 2 :: R.NeedsUpdate(s.cache, setting.cfg.id, setting.lists[k])
    ensures forall i | 0 <= i < |schedule| :: schedule[i] < 2
    ensures Play(setting, s, schedule) == Start(s, 2).(phases := [Writing, Writing])
  {
    var r := Start(s, 2);
    schedule := [];
    FindsWork(setting, s, schedule, 0, r);
    r := r.(phases := r.phases[0 := Writing]);
    schedule := schedule + [0];
    FindsWork(setting, s, schedule, 1, r);
    assert r.phases[1 := Writing] == [Writing, Writing];
    schedule := schedule + [1];
  }

  lemma {:induction false} BothWriteZone(setting: Setting, s: R.State) returns (schedule: seq<nat>)
    requires |setting.lists| == 2 && setting.unresolved == {} == setting.failing
    requires forall k | 0 <= k < 2 :: R.NeedsUpdate(s.cache, setting.cfg.id, setting.lists[k])
    ensures forall i | 0 <= i < |schedule| :: schedule[i] < 2
    ensures
      var r := Play(setting, s, schedule);
      r.phases == [Storing, Storing] && r.zoneOrder == [0, 1] && r.cacheOrder == []
  {
    schedule := BothFindWork(setting, s);
    PlaySnoc(setting, s, schedule, 0);
    PlaySnoc(setting, s, schedule + [0], 1);
    schedule := schedule + [0] + [1];
  }

  /** It does happen: the first to write the zone is the last to write the cache. */
  lemma {:induction false} DisagreementIsReachable(setting: Setting, s: R.State) returns (schedule: seq<nat>)
    requires |setting.lists| == 2 && setting.unresolved == {} == setting.failing
    requires forall k | 0 <= k < 2 :: R.NeedsUpdate(s.cache, setting.cfg.id, setting.lists[k])
    ensures forall i | 0 <= i < |schedule| :: schedule[i] < 2
    ensures
      var r := Play(setting, s, schedule);
      Settled(r) && r.zoneOrder == [0, 1] && r.cacheOrder == [1, 0]
  {
    schedule := BothWriteZone(setting, s);
    PlaySnoc(setting, s, schedule, 1);
    PlaySnoc(setting, s, schedule + [1], 0);
    schedule := schedule + [1] + [0];
  }

  /** And it is not repaired: while the list last cached is the desired one, every reconciliation sees nothing to do. */
  lemma {:induction false} DisagreementStays(
    setting: Setting, s: R.State, schedule: seq<nat>, rows: R.Rows, faults: R.Faults)
    requires |setting.lists| == 2 && P.CacheMatches(s, setting.cfg)
    requires forall i | 0 <= i < |schedule| :: schedule[i] < 2
    requires
      var r := Play(setting, s, schedule);
      && Settled(r) && r.zoneOrder == [0, 1] && r.cacheOrder == [1, 0]
      && setting.lists[0] != setting.lists[1] && R.Desired(rows, setting.cfg) == setting.lists[0]
    requires setting.cfg.id !in faults.listBackends && setting.cfg.id !in faults.healthStates
    ensures
      var mixed := After(s, Play(setting, s, schedule));
      !P.CacheMatches(mixed, setting.cfg) && R.Reconciled(mixed, rows, setting.cfg, faults) == (mixed, None)
  {
    PlayIsSound(setting, s, schedule);
    TwoDisagreeExactly(setting, s, schedule);
  }

  // ---------- One reconciliation by itself ----------

  lemma {:induction false} AloneReads(setting: Setting, s: R.State)
    requires |setting.lists| == 1
    ensures Play(setting, s, [0]) == Start(s, 1).(phases :=
      [if R.NeedsUpdate(s.cache, setting.cfg.id, setting.lists[0]) then Writing else Through])
  {
    PlaySnoc(setting, s, [], 0);
    assert [] + [0] == [0];
  }

  /** With nothing in between, and its calls failing alike, the three steps are the reconciliation. */
  lemma {:induction false} AloneIsReconciled(setting: Setting, s: R.State, rows: R.Rows, faults: R.Faults)
    requires setting.lists == [R.Desired(rows, setting.cfg)]
    requires 0 in setting.unresolved <==> setting.cfg.id !in s.provided
    requires 0 in setting.failing <==>
      || setting.cfg.dnsName == ""
      || if R.Desired(rows, setting.cfg) == [] then setting.cfg.dnsName in faults.deletes
         else setting.cfg.dnsName in faults.upserts || setting.cfg.dnsTtl <= 0
    requires setting.cfg.id !in faults.listBackends && setting.cfg.id !in faults.healthStates
    ensures After(s, Play(setting, s, [0] + [0] + [0])) == R.Reconciled(s, rows, setting.cfg, faults).0
    ensures Settled(Play(setting, s, [0] + [0] + [0]))
  {
    AloneReads(setting, s);
    PlaySnoc(setting, s, [0], 0);
    PlaySnoc(setting, s, [0] + [0], 0);
    assert setting.cfg.dnsName !in s.zone ==> s.zone - {setting.cfg.dnsName} == s.zone;
  }
}
