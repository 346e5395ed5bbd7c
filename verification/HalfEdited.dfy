/**
 * The reconciler's cache over the provider whose upserts can be cut off: what a config's name publishes over
 * whole runs of failing and succeeding reconciliations (internal/dns/reconciler.go, internal/dns/cloudflare.go).
 */
module HalfEdited {
  import opened Types
  import opened Provider
  import opened Cloudflare
  import opened UpsertProperties

  // ---------- Reconciliations of one name ----------

  /** The zone, and the list last written for the name. */
  datatype Site = Site(zone: Zone, cache: Option<seq<string>>)

  /** What a reconciliation wants, and what it meets: an attempt, or for no address the records it deletes. */
  datatype Round = Round(req: UpsertRequest, attempt: Attempt, removed: set<nat>)

  /** A cached list is skipped; a deletion is noted as done whatever it removed; a failed upsert is not noted. */
  ghost predicate Reconciles(a: Site, b: Site, r: Round)
  {
    if a.cache == Some(r.req.records) then b == a
    else if r.req.records == [] then
      r.removed <= ListedIds(a.zone, r.req.name) && b == Site(a.zone - r.removed, Some([]))
    else if ValidateUpsertRequest(r.req).Err? then b == a
    else
      && Turns(a.zone, b.zone, r.req, r.attempt)
      && b.cache == if r.attempt.outcome.Ok? then Some(r.req.records) else a.cache
  }

  ghost predicate ReportsSuccess(a: Site, r: Round)
  {
    || a.cache == Some(r.req.records)
    || r.req.records == []
    || (ValidateUpsertRequest(r.req).Ok? && r.attempt.outcome.Ok?)
  }

  /** The addresses whose records a reconciliation has changed. */
  ghost function Touched(a: Site, r: Round): set<string>
  {
    if a.cache == Some(r.req.records) then {}
    else if r.req.records == [] then set id | id in r.removed && id in a.zone :: a.zone[id].content
    else if ValidateUpsertRequest(r.req).Err? || r.attempt.faults.listFails then {}
    else r.attempt.log.fixed
  }

  // ---------- One address ----------

  /** The TTL with which a name publishes an address; the only one when no address is published twice. */
  ghost function ViewAt(zone: Zone, name: string, ip: string): Option<int>
  {
    var index := IndexOf(zone, name);
    if ip in index then Some(zone[index[ip]].ttl) else None
  }

  function Asked(req: UpsertRequest, ip: string): Option<int>
  {
    if ip in req.records then Some(req.ttl) else None
  }

  lemma {:induction false} ViewIsPublished(zone: Zone, name: string, ip: string)
    ensures ViewAt(zone, name, ip).Some? <==> ip in Published(zone, name)
  {
  }

  lemma {:induction false} ViewOf(zone: Zone, name: string, id: nat)
    requires DuplicateFree(zone, name) && Listed(zone, name, id)
    ensures ViewAt(zone, name, zone[id].content) == Some(zone[id].ttl)
  {
    var index := IndexOf(zone, name);
    assert zone[id].content in index;
  }

  /** What was not touched is as before, what was touched as asked. */
  lemma {:induction false} EditedView(before: Zone, after: Zone, req: UpsertRequest, log: Log, ip: string)
    requires DuplicateFree(before, req.name) && Explains(before, after, GoalOf(req), log)
    ensures ViewAt(after, req.name, ip) == if ip in log.fixed then Asked(req, ip) else ViewAt(before, req.name, ip)
  {
    var goal := GoalOf(req);
    EditKeepsDuplicateFree(before, after, log.index, goal, log.fixed, log.created);
    IndexUnique(before, req.name, log.index, IndexOf(before, req.name));
    PublishedAfter(before, after, log.index, goal, log.fixed, log.created, ip);
    NotDuplicated(before, req.name, ip);
    ViewIsPublished(before, req.name, ip);
    ViewIsPublished(after, req.name, ip);
    if ip in Published(after, req.name) {
      EditedTtl(before, after, req, log, IndexOf(after, req.name)[ip]);
    }
  }

  lemma {:induction false} EditedTtl(before: Zone, after: Zone, req: UpsertRequest, log: Log, id: nat)
    requires DuplicateFree(before, req.name) && Explains(before, after, GoalOf(req), log)
    requires Listed(after, req.name, id)
    ensures
      var ip := after[id].content;
      if ip in log.fixed then after[id].ttl == req.ttl else ViewAt(before, req.name, ip) == Some(after[id].ttl)
  {
    var ip := after[id].content;
    IndexUnique(before, req.name, log.index, IndexOf(before, req.name));
    if ip in req.records {
      PublishedAfter(before, after, log.index, GoalOf(req), log.fixed, log.created, ip);
      ViewIsPublished(before, req.name, ip);
      TtlAfter(before, after, log.index, GoalOf(req), log.fixed, log.created, id);
    } else if id in before {
      ViewOf(before, req.name, id);
    } else {
      assert log.created[id] in log.created.Values;
    }
  }

  // ---------- One reconciliation ----------

  lemma {:induction false} DeletionView(zone: Zone, name: string, removed: set<nat>, ip: string)
    requires DuplicateFree(zone, name) && removed <= ListedIds(zone, name)
    ensures DuplicateFree(zone - removed, name)
    ensures
      var touched := set id | id in removed && id in zone :: zone[id].content;
      ViewAt(zone - removed, name, ip) == if ip in touched then None else ViewAt(zone, name, ip)
  {
    var after := zone - removed;
    ViewIsPublished(zone, name, ip);
    ViewIsPublished(after, name, ip);
    if ip in Published(after, name) {
      var id := IndexOf(after, name)[ip];
      assert Listed(zone, name, id) && after[id] == zone[id];
      ViewOf(zone, name, id);
      assert forall other | other in removed && zone[other].content == ip :: other == id;
    } else if ip in Published(zone, name) {
      var id := IndexOf(zone, name)[ip];
      assert id in zone && id in removed + after.Keys;
    }
  }

  /** A reconciliation leaves what it touched as asked, and the rest as it was. */
  lemma {:induction false} RoundView(a: Site, b: Site, r: Round, ip: string)
    requires DuplicateFree(a.zone, r.req.name) && Reconciles(a, b, r)
    ensures DuplicateFree(b.zone, r.req.name)
    ensures ViewAt(b.zone, r.req.name, ip) ==
      if ip in Touched(a, r) then Asked(r.req, ip) else ViewAt(a.zone, r.req.name, ip)
  {
    if a.cache != Some(r.req.records) {
      if r.req.records == [] {
        DeletionView(a.zone, r.req.name, r.removed, ip);
      } else if ValidateUpsertRequest(r.req).Ok? && !r.attempt.faults.listFails {
        TurnsExplained(a.zone, b.zone, r.req, r.attempt);
        ExplainedDistance(a.zone, b.zone, GoalOf(r.req), r.attempt.log);
        EditedView(a.zone, b.zone, r.req, r.attempt.log, ip);
      }
    }
  }

  lemma {:induction false} TurnedShowsRequest(before: Zone, after: Zone, req: UpsertRequest, t: Attempt)
    requires DuplicateFree(before, req.name) && Turns(before, after, req, t) && t.outcome.Ok?
    ensures Published(after, req.name) == Elements(req.records)
    ensures forall id | id in after && Listed(after, req.name, id) :: after[id].ttl == req.ttl
  {
    AttemptProgress(before, after, req, t);
    NothingWrongShowsRequest(after, req);
    ShownIsPublished(after, req);
  }

  /** A reconciliation that wrote and succeeded publishes exactly its list, and remembers it. */
  lemma {:induction false} SuccessPublishesList(a: Site, b: Site, r: Round)
    requires DuplicateFree(a.zone, r.req.name) && Reconciles(a, b, r) && ReportsSuccess(a, r)
    requires a.cache != Some(r.req.records) && r.req.records != []
    ensures b.cache == Some(r.req.records) && Published(b.zone, r.req.name) == Elements(r.req.records)
    ensures forall id | id in b.zone && Listed(b.zone, r.req.name, id) :: b.zone[id].ttl == r.req.ttl
  {
    TurnedShowsRequest(a.zone, b.zone, r.req, r.attempt);
  }

  // ---------- Runs ----------

  /** sites[i + 1] is what the i-th reconciliation made of sites[i], all of the same name. */
  ghost predicate History(sites: seq<Site>, rounds: seq<Round>, name: string)
  {
    && |sites| == |rounds| + 1
    && DuplicateFree(sites[0].zone, name)
    && forall i | 0 <= i < |rounds| :: rounds[i].req.name == name && Reconciles(sites[i], sites[i + 1], rounds[i])
  }

  lemma {:induction false} HistoryStarts(a: Site, name: string)
    requires DuplicateFree(a.zone, name)
    ensures History([a], [], name)
  {
  }

  /** How the last reconciliation to touch an address asked for it; before there is one, how it was published. */
  ghost function LastTouch(sites: seq<Site>, rounds: seq<Round>, name: string, ip: string): Option<int>
    requires |sites| == |rounds| + 1
  {
    if rounds == [] then ViewAt(sites[0].zone, name, ip) else
      var n := |rounds| - 1;
      if ip in Touched(sites[n], rounds[n]) then Asked(rounds[n].req, ip)
      else LastTouch(sites[..n + 1], rounds[..n], name, ip)
  }

  lemma {:induction false} HistoryPrefix(sites: seq<Site>, rounds: seq<Round>, name: string)
    requires History(sites, rounds, name) && rounds != []
    ensures History(sites[..|rounds|], rounds[..|rounds| - 1], name)
  {
    var n := |rounds| - 1;
    forall i | 0 <= i < n
      ensures rounds[..n][i].req.name == name && Reconciles(sites[..n + 1][i], sites[..n + 1][i + 1], rounds[..n][i])
    {
      assert Reconciles(sites[i], sites[i + 1], rounds[i]);
    }
  }

  /** Over every run, failing calls and all, the last touch decides what is published, address by address. */
  lemma {:induction false} LastTouchDecides(sites: seq<Site>, rounds: seq<Round>, name: string, ip: string)
    requires History(sites, rounds, name)
    ensures DuplicateFree(sites[|rounds|].zone, name)
    ensures ViewAt(sites[|rounds|].zone, name, ip) == LastTouch(sites, rounds, name, ip)
  {
    if rounds != [] {
      var n := |rounds| - 1;
      HistoryPrefix(sites, rounds, name);
      LastTouchDecides(sites[..n + 1], rounds[..n], name, ip);
      RoundView(sites[n], sites[n + 1], rounds[n], ip);
    }
  }

  // ---------- When a reported success leaves the zone half edited ----------

  /**
   * Whenever the cached list is wanted again, the reconciliation reports success and leaves the zone alone; what
   * it leaves published is that list iff every address was last asked for, or published to begin with, exactly
   * if it is in the list.
   */
  lemma {:induction false} SkippedIsRightExactly(
    sites: seq<Site>, rounds: seq<Round>, name: string, r: Round, after: Site)
    requires History(sites, rounds, name) && r.req.name == name
    requires sites[|rounds|].cache == Some(r.req.records) && Reconciles(sites[|rounds|], after, r)
    ensures ReportsSuccess(sites[|rounds|], r) && after == sites[|rounds|]
    ensures Published(after.zone, name) == Elements(r.req.records)
       <==> forall ip :: LastTouch(sites, rounds, name, ip).Some? <==> ip in r.req.records
  {
    forall ip
      ensures LastTouch(sites, rounds, name, ip).Some? <==> ip in Published(after.zone, name)
    {
      LastTouchDecides(sites, rounds, name, ip);
      ViewIsPublished(after.zone, name, ip);
    }
  }

  /** All of a run's reconciliations want the address; at least one does. */
  predicate AllWant(rounds: seq<Round>, ip: string)
  {
    forall i | 0 <= i < |rounds| :: ip in rounds[i].req.records
  }

  predicate SomeWants(rounds: seq<Round>, ip: string)
  {
    exists i | 0 <= i < |rounds| :: ip in rounds[i].req.records
  }

  lemma {:induction false} LastTouchBetween(sites: seq<Site>, rounds: seq<Round>, name: string, ip: string)
    requires |sites| == |rounds| + 1
    ensures ip in Published(sites[0].zone, name) && AllWant(rounds, ip) ==> LastTouch(sites, rounds, name, ip).Some?
    ensures LastTouch(sites, rounds, name, ip).Some? ==> ip in Published(sites[0].zone, name) || SomeWants(rounds, ip)
  {
    if rounds == [] {
      ViewIsPublished(sites[0].zone, name, ip);
    } else {
      var n := |rounds| - 1;
      LastTouchBetween(sites[..n + 1], rounds[..n], name, ip);
      assert AllWant(rounds, ip) ==> AllWant(rounds[..n], ip) && ip in rounds[n].req.records;
      assert SomeWants(rounds[..n], ip) || ip in rounds[n].req.records ==> SomeWants(rounds, ip);
    }
  }

  /**
   * However a run fails, an address that was published and is wanted throughout stays published, and one that
   * was not and is never wanted does not appear.
   */
  lemma {:induction false} RunStaysBetween(sites: seq<Site>, rounds: seq<Round>, name: string, ip: string)
    requires History(sites, rounds, name)
    ensures
      var first, last := Published(sites[0].zone, name), Published(sites[|rounds|].zone, name);
      && (ip in first && AllWant(rounds, ip) ==> ip in last)
      && (ip in last ==> ip in first || SomeWants(rounds, ip))
  {
    LastTouchDecides(sites, rounds, name, ip);
    LastTouchBetween(sites, rounds, name, ip);
    ViewIsPublished(sites[|rounds|].zone, name, ip);
  }

  // ---------- A single cut-off upsert ----------

  /**
   * From a zone that publishes the cached list, a failed upsert of a list that drops one of its addresses leaves
   * the zone half edited iff one of its calls took effect. The cache does not notice: when the cached list is
   * wanted again, success is reported and nothing is repaired.
   */
  lemma {:induction false} OneFailureHalfEditsExactly(a: Site, b: Site, r: Round)
    requires DuplicateFree(a.zone, r.req.name) && Reconciles(a, b, r) && !ReportsSuccess(a, r)
    requires ValidateUpsertRequest(r.req).Ok? && Published(a.zone, r.req.name) - Elements(r.req.records) != {}
    ensures b.cache == a.cache
    ensures Published(b.zone, r.req.name) != Published(a.zone, r.req.name) <==> Effort(r.attempt.faults) > 0
  {
    if !r.attempt.faults.listFails {
      TurnsExplained(a.zone, b.zone, r.req, r.attempt);
      DroppedFirst(a.zone, r.req, r.attempt);
      var log := r.attempt.log;
      forall ip
        ensures ip in Published(b.zone, r.req.name) <==>
          if ip in log.fixed then ip in r.req.records else ip in Published(a.zone, r.req.name)
      {
        RoundView(a, b, r, ip);
        ViewIsPublished(a.zone, r.req.name, ip);
        ViewIsPublished(b.zone, r.req.name, ip);
      }
    }
  }

  /** The first call that takes effect drops an address. */
  lemma {:induction false} DroppedFirst(before: Zone, req: UpsertRequest, t: Attempt)
    requires IsIndex(before, req.name, t.log.index) && t.outcome.Err? && !t.faults.listFails
    requires Reported(Wrong(before, t.log.index, GoalOf(req)), req, t)
    requires Published(before, req.name) - Elements(req.records) != {}
    ensures |t.log.fixed| == Effort(t.faults)
    ensures t.log.fixed != {} ==>
      exists ip :: ip in t.log.fixed && ip in Published(before, req.name) && ip !in req.records
  {
    var wrong, dropped := Wrong(before, t.log.index, GoalOf(req)), Published(before, req.name) - Elements(req.records);
    WrongAddresses(before, t.log.index, req);
    assert t.log.index.Keys == Published(before, req.name);
    assert wrong - Elements(req.records) == dropped;
    if t.log.fixed != {} {
      var ip :| ip in if t.log.fixed <= dropped then t.log.fixed else dropped;
      assert ip in dropped;
    }
  }

  lemma {:induction false} DifferentLists(move: UpsertRequest, back: UpsertRequest)
    requires back.records != [] && Elements(back.records) !! Elements(move.records)
    ensures move.records != back.records
  {
    assert back.records[0] in Elements(back.records);
  }

  lemma {:induction false} EmptyIsNoSuccess(before: Zone, after: Zone, req: UpsertRequest, t: Attempt)
    requires DuplicateFree(before, req.name) && Turns(before, after, req, t)
    requires Published(after, req.name) == {}
    ensures t.outcome.Err? && req.records != []
  {
    assert req.records != [] && req.records[0] in Elements(req.records);
    if t.outcome.Ok? {
      TurnedShowsRequest(before, after, req, t);
    }
  }

  lemma {:induction false} FailedAttemptIsRound(a: Site, zone: Zone, req: UpsertRequest, t: Attempt)
    requires a.cache != Some(req.records) && req.records != []
    requires Turns(a.zone, zone, req, t) && t.outcome.Err?
    ensures Reconciles(a, Site(zone, a.cache), Round(req, t, {})) && !ReportsSuccess(a, Round(req, t, {}))
  {
  }

  lemma {:induction false} CachedIsRound(a: Site, r: Round)
    requires a.cache == Some(r.req.records)
    ensures Reconciles(a, a, r) && ReportsSuccess(a, r)
  {
  }

  /**
   * It does happen: a failed move to other addresses can leave a name without any, and moving back is then
   * reported as a success that publishes nothing.
   */
  lemma {:induction false} EmptySuccessIsReachable(a: Site, move: UpsertRequest, back: UpsertRequest)
    returns (b: Site, failed: Round, again: Round)
    requires move.name == back.name && DuplicateFree(a.zone, move.name) && ValidateUpsertRequest(move).Ok?
    requires back.records != [] && a.cache == Some(back.records)
    requires Published(a.zone, move.name) == Elements(back.records)
    requires Elements(back.records) !! Elements(move.records)
    ensures failed.req == move && Reconciles(a, b, failed) && !ReportsSuccess(a, failed)
    ensures again.req == back && Reconciles(b, b, again) && ReportsSuccess(b, again)
    ensures Published(b.zone, back.name) == {}
  {
    assert Published(a.zone, move.name) * Elements(move.records) == {};
    var zone, attempt := GapIsReachable(a.zone, move);
    b, failed, again := Site(zone, a.cache), Round(move, attempt, {}), Round(back, attempt, {});
    DifferentLists(move, back);
    EmptyIsNoSuccess(a.zone, zone, move, attempt);
    FailedAttemptIsRound(a, zone, move, attempt);
    CachedIsRound(b, again);
  }
}
