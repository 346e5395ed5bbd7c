/** The set-diff upsert over retries, and against the provider that simply replaces a name's records. */
module UpsertProperties {
  import opened Types
  import opened Provider
  import opened Cloudflare
  import Mock = MockProvider

  // ---------- One attempt ----------

  /** What an upsert leaves behind in evidence: the index it built, what it put right, what it created. */
  datatype Log = Log(index: Index, fixed: set<string>, created: Created)

  /** One attempt at an upsert: the failures it met, what it reported, its acknowledged calls. */
  datatype Attempt = Attempt(faults: Faults, outcome: Outcome, calls: nat, log: Log)

  /** An attempt of a valid request, one that names no address twice, turned before into after. */
  ghost predicate Turns(before: Zone, after: Zone, req: UpsertRequest, t: Attempt)
  {
    && ValidateUpsertRequest(req).Ok?
    && UpsertEffect(before, after, req, t.faults, t.outcome, t.calls, t.log.index, t.log.fixed, t.log.created)
  }

  /** The log is an edit of wrong addresses. */
  ghost predicate Explains(before: Zone, after: Zone, goal: Goal, log: Log)
  {
    && IsIndex(before, goal.name, log.index)
    && Edited(before, after, log.index, goal, log.fixed, log.created)
    && log.fixed <= Wrong(before, log.index, goal)
  }

  /**
   * How many edits an attempt can make: none if it cannot list, else the acknowledged ones and one whose reply
   * is lost.
   */
  function Effort(faults: Faults): nat
  {
    if faults.listFails then 0 else faults.good + if faults.replyLost then 1 else 0
  }

  lemma DeletionsFirstFixesWrong(wrong: set<string>, req: UpsertRequest, fixed: set<string>)
    requires DeletionsFirst(wrong, req, fixed)
    ensures fixed <= wrong
  {
  }

  /** What an attempt reports and has put right, given what was wrong. */
  ghost predicate Reported(wrong: set<string>, req: UpsertRequest, t: Attempt)
  {
    if |wrong| <= t.faults.good then t.outcome == Ok && t.log.fixed == wrong && t.calls == |wrong|
    else
      && t.outcome == Err(CallFailed) && DeletionsFirst(wrong, req, t.log.fixed)
      && |t.log.fixed| == Effort(t.faults) && t.calls == t.faults.good
  }

  lemma {:induction false} TurnsExplained(before: Zone, after: Zone, req: UpsertRequest, t: Attempt)
    requires Turns(before, after, req, t) && !t.faults.listFails
    ensures Explains(before, after, GoalOf(req), t.log)
    ensures Reported(Wrong(before, t.log.index, GoalOf(req)), req, t)
  {
    var wrong := Wrong(before, t.log.index, GoalOf(req));
    if |wrong| > t.faults.good {
      DeletionsFirstFixesWrong(wrong, req, t.log.fixed);
    }
  }

  lemma {:induction false} ExplainedDistance(before: Zone, after: Zone, goal: Goal, log: Log)
    requires DuplicateFree(before, goal.name) && Explains(before, after, goal, log)
    ensures DuplicateFree(after, goal.name)
    ensures Distance(before, goal) == |Wrong(before, log.index, goal)|
    ensures Distance(after, goal) == Distance(before, goal) - |log.fixed|
  {
    IndexUnique(before, goal.name, log.index, IndexOf(before, goal.name));
    EditKeepsDuplicateFree(before, after, log.index, goal, log.fixed, log.created);
    WrongAfter(before, after, log.index, goal, log.fixed, log.created, IndexOf(after, goal.name));
    DifferenceSize(Wrong(before, log.index, goal), log.fixed);
  }

  lemma DifferenceSize(all: set<string>, part: set<string>)
    requires part <= all
    ensures |all - part| == |all| - |part|
  {
    assert all == part + (all - part);
  }

  /**
   * Every edit brings the zone exactly one address closer. An attempt succeeds iff it can list and its good
   * calls cover the whole distance, and then it has made exactly that many.
   */
  lemma {:induction false} AttemptProgress(before: Zone, after: Zone, req: UpsertRequest, t: Attempt)
    requires DuplicateFree(before, req.name) && Turns(before, after, req, t)
    ensures DuplicateFree(after, req.name)
    ensures t.outcome ==
      if !t.faults.listFails && Distance(before, GoalOf(req)) <= t.faults.good then Ok else Err(CallFailed)
    ensures t.outcome.Ok? ==> Distance(after, GoalOf(req)) == 0 && t.calls == Distance(before, GoalOf(req))
    ensures t.outcome.Err? ==>
      && Distance(after, GoalOf(req)) == Distance(before, GoalOf(req)) - Effort(t.faults)
      && t.calls == if t.faults.listFails then 0 else t.faults.good
  {
    if !t.faults.listFails {
      TurnsExplained(before, after, req, t);
      ExplainedDistance(before, after, GoalOf(req), t.log);
    }
  }

  /**
   * A cut-off upsert keeps publishing what was published and is still wanted, and publishes nothing that
   * was neither published nor wanted.
   */
  lemma {:induction false} AttemptStaysBetween(before: Zone, after: Zone, req: UpsertRequest, t: Attempt)
    requires Turns(before, after, req, t)
    ensures Published(before, req.name) * Elements(req.records) <= Published(after, req.name)
    ensures Published(after, req.name) <= Published(before, req.name) + Elements(req.records)
  {
    if !t.faults.listFails {
      TurnsExplained(before, after, req, t);
      PublishedBetween(before, after, t.log.index, GoalOf(req), t.log.fixed, t.log.created);
    }
  }

  // ---------- Retries ----------

  function TotalEffort(attempts: seq<Attempt>): nat
  {
    if attempts == [] then 0
    else TotalEffort(attempts[..|attempts| - 1]) + Effort(attempts[|attempts| - 1].faults)
  }

  /**
   * Retries converge: zones[i + 1] being what the i-th attempt of the same request made of zones[i], the
   * distance left is the initial one less all edits made, and never below zero.
   * So any attempts with enough effective calls between them leave nothing wrong, however they failed.
   */
  lemma {:induction false} RetriesConverge(zones: seq<Zone>, req: UpsertRequest, attempts: seq<Attempt>)
    requires |zones| == |attempts| + 1 && DuplicateFree(zones[0], req.name)
    requires forall i | 0 <= i < |attempts| :: Turns(zones[i], zones[i + 1], req, attempts[i])
    ensures DuplicateFree(zones[|attempts|], req.name)
    ensures
      var start, effort := Distance(zones[0], GoalOf(req)), TotalEffort(attempts);
      Distance(zones[|attempts|], GoalOf(req)) == if effort >= start then 0 else start - effort
  {
    if attempts != [] {
      var n := |attempts| - 1;
      RetriesConverge(zones[..|attempts|], req, attempts[..n]);
      assert Turns(zones[n], zones[n + 1], req, attempts[n]);
      AttemptProgress(zones[n], zones[n + 1], req, attempts[n]);
    }
  }

  // ---------- Against replacement ----------

  /** The A records of a name are exactly the view's addresses, each with its TTL. */
  ghost predicate Shows(zone: Zone, name: string, view: View)
  {
    && (forall id | id in zone && Listed(zone, name, id) ::
          zone[id].content in view && view[zone[id].content] == zone[id].ttl)
    && (forall ip | ip in view :: ip in Published(zone, name))
  }

  /** The zone and the in-memory provider publish the same under every name. */
  ghost predicate Agree(zone: Zone, records: Mock.Records)
  {
    forall name :: Shows(zone, name, Mock.ViewOf(records, name))
  }

  /** So they publish the same addresses, each with the same TTL. */
  lemma {:induction false} AgreementExactly(zone: Zone, records: Mock.Records, name: string)
    requires Agree(zone, records)
    ensures Published(zone, name) == if name in records then Elements(records[name].ips) else {}
    ensures forall id | id in zone && Listed(zone, name, id) ::
      name in records && zone[id].content in records[name].ips && zone[id].ttl == records[name].ttl
  {
    assert Shows(zone, name, Mock.ViewOf(records, name));
  }

  /** With nothing wrong, the name shows the requested addresses, all with the requested TTL. */
  lemma NothingWrongShowsRequest(zone: Zone, req: UpsertRequest)
    requires DuplicateFree(zone, req.name) && Distance(zone, GoalOf(req)) == 0
    ensures Shows(zone, req.name, RequestedView(req))
  {
    var goal, index := GoalOf(req), IndexOf(zone, req.name);
    assert forall ip :: ip !in Wrong(zone, index, goal);
    forall id | id in zone && Listed(zone, req.name, id)
      ensures zone[id].content in goal.wanted && zone[id].ttl == req.ttl
    {
      assert index[zone[id].content] == id;
    }
    forall ip | ip in goal.wanted
      ensures ip in Published(zone, req.name)
    {
      assert Listed(zone, req.name, index[ip]);
    }
  }

  lemma {:induction false} ShownIsPublished(zone: Zone, req: UpsertRequest)
    requires Shows(zone, req.name, RequestedView(req))
    ensures Published(zone, req.name) == Elements(req.records)
    ensures forall id | id in zone && Listed(zone, req.name, id) :: zone[id].ttl == req.ttl
  {
  }

  lemma OtherNamesKeepTheirView(before: Zone, after: Zone, goal: Goal, log: Log, name: string, view: View)
    requires Explains(before, after, goal, log) && name != goal.name && Shows(before, name, view)
    ensures Shows(after, name, view)
  {
    forall id
      ensures Listed(before, name, id) <==> Listed(after, name, id)
      ensures Listed(after, name, id) ==> before[id] == after[id]
    {
      EditTouchesNothingElse(before, after, log.index, goal, log.fixed, log.created, id);
    }
    forall ip | ip in view
      ensures ip in Published(after, name)
    {
      var id :| id in before && Listed(before, name, id) && before[id].content == ip;
      assert Listed(after, name, id);
    }
  }

  lemma ReplacedView(records: Mock.Records, req: UpsertRequest, name: string)
    ensures Mock.ViewOf(records[req.name := Mock.MockRecord(req.ttl, req.records)], name)
         == if name == req.name then RequestedView(req) else Mock.ViewOf(records, name)
  {
  }

  /**
   * A successful set-diff upsert refines replacement: a zone that agreed with the reference before still
   * agrees with it after, and was reached in as many calls as there were addresses to put right.
   */
  lemma {:induction false} UpsertRefinesReplacement(
    before: Zone, after: Zone, records: Mock.Records, req: UpsertRequest, t: Attempt)
    requires DuplicateFree(before, req.name) && Turns(before, after, req, t) && t.outcome.Ok? && Agree(before, records)
    ensures Agree(after, records[req.name := Mock.MockRecord(req.ttl, req.records)])
    ensures t.calls == Distance(before, GoalOf(req))
  {
    var replaced := records[req.name := Mock.MockRecord(req.ttl, req.records)];
    AttemptProgress(before, after, req, t);
    TurnsExplained(before, after, req, t);
    NothingWrongShowsRequest(after, req);
    forall name
      ensures Shows(after, name, Mock.ViewOf(replaced, name))
    {
      ReplacedView(records, req, name);
      if name != req.name {
        OtherNamesKeepTheirView(before, after, GoalOf(req), t.log, name, Mock.ViewOf(records, name));
      }
    }
  }

  /** Deleting all listed records of a name refines deleting its entry, absent or not. */
  lemma DeleteRefinesDeletion(zone: Zone, records: Mock.Records, name: string)
    requires Agree(zone, records)
    ensures Agree(zone - ListedIds(zone, name), records - {name})
  {
    var after, deleted := zone - ListedIds(zone, name), records - {name};
    forall other
      ensures Shows(after, other, Mock.ViewOf(deleted, other))
    {
      assert Shows(zone, other, Mock.ViewOf(records, other));
      if other != name {
        assert Mock.ViewOf(deleted, other) == Mock.ViewOf(records, other);
        forall ip | ip in Mock.ViewOf(deleted, other)
          ensures ip in Published(after, other)
        {
          var id :| id in zone && Listed(zone, other, id) && zone[id].content == ip;
          assert Listed(after, other, id);
        }
      }
    }
  }

  // ---------- Where the guarantees end ----------

  /**
   * Deletions come first, so replacing all addresses of a name passes through a zone without any: if the
   * first creation is refused, the name is left with no record at all.
   */
  lemma {:induction false} FailoverGap(before: Zone, after: Zone, req: UpsertRequest, t: Attempt)
    requires DuplicateFree(before, req.name) && Turns(before, after, req, t)
    requires Published(before, req.name) * Elements(req.records) == {}
    requires !t.faults.listFails && t.faults.good == |Published(before, req.name)| && !t.faults.replyLost
    ensures t.outcome == Err(CallFailed) && Published(after, req.name) == {}
  {
    TurnsExplained(before, after, req, t);
    ReportedGap(before, after, req, t);
  }

  lemma {:induction false} ReportedGap(before: Zone, after: Zone, req: UpsertRequest, t: Attempt)
    requires DuplicateFree(before, req.name) && Explains(before, after, GoalOf(req), t.log)
    requires ValidateUpsertRequest(req).Ok?
    requires Reported(Wrong(before, t.log.index, GoalOf(req)), req, t)
    requires Published(before, req.name) * Elements(req.records) == {}
    requires !t.faults.listFails && t.faults.good == |Published(before, req.name)| && !t.faults.replyLost
    ensures t.outcome == Err(CallFailed) && Published(after, req.name) == {}
  {
    ValidRequestsAddresses(req);
    StoppedAtDeletions(before, after, req, t.log);
  }

  lemma {:induction false} ValidRequestsAddresses(req: UpsertRequest)
    requires ValidateUpsertRequest(req).Ok?
    ensures |req.records| > 0
  {
  }

  lemma {:induction false} StoppedAtDeletions(before: Zone, after: Zone, req: UpsertRequest, log: Log)
    requires DuplicateFree(before, req.name) && Explains(before, after, GoalOf(req), log) && |req.records| > 0
    requires Published(before, req.name) * Elements(req.records) == {}
    ensures |Wrong(before, log.index, GoalOf(req))| > |Published(before, req.name)|
    ensures DeletionsFirst(Wrong(before, log.index, GoalOf(req)), req, log.fixed) &&
      |log.fixed| == |Published(before, req.name)|
      ==> Published(after, req.name) == {}
  {
    assert log.index.Keys == Published(before, req.name);
    DisjointDiff(before, log.index, req, log.fixed);
    if log.fixed == log.index.Keys {
      AllDeleted(before, after, GoalOf(req), log);
    }
  }

  lemma AllDeleted(before: Zone, after: Zone, goal: Goal, log: Log)
    requires DuplicateFree(before, goal.name) && Explains(before, after, goal, log)
    requires log.fixed == log.index.Keys && log.index.Keys * goal.wanted == {}
    ensures Published(after, goal.name) == {}
  {
    forall ip
      ensures ip !in Published(after, goal.name)
    {
      PublishedAfter(before, after, log.index, goal, log.fixed, log.created, ip);
      NotDuplicated(before, goal.name, ip);
      assert ip in log.index <==> ip in Published(before, goal.name);
    }
  }

  lemma DisjointSets(wrong: set<string>, published: set<string>, desired: set<string>, ip: string)
    requires wrong - desired == published - desired && published * desired == {}
    requires ip in desired && ip in wrong
    ensures wrong - desired == published && |wrong| > |published|
  {
    assert published - desired == published;
    SubsetSize(published + {ip}, wrong);
  }

  lemma DisjointDiff(before: Zone, index: Index, req: UpsertRequest, fixed: set<string>)
    requires IsIndex(before, req.name, index) && |req.records| > 0
    requires index.Keys * Elements(req.records) == {}
    ensures |Wrong(before, index, GoalOf(req))| > |index.Keys|
    ensures DeletionsFirst(Wrong(before, index, GoalOf(req)), req, fixed) && |fixed| == |index.Keys| ==>
      fixed == index.Keys
  {
    var wrong := Wrong(before, index, GoalOf(req));
    WrongAddresses(before, index, req);
    DisjointSets(wrong, index.Keys, Elements(req.records), req.records[0]);
    if DeletionsFirst(wrong, req, fixed) && |fixed| == |index.Keys| {
      ReachedNoFurther(wrong, req, fixed);
    }
  }

  /** An upsert that made as many edits as there are deletions has made exactly the deletions. */
  lemma ReachedNoFurther(wrong: set<string>, req: UpsertRequest, fixed: set<string>)
    requires DeletionsFirst(wrong, req, fixed) && |fixed| == |wrong - Elements(req.records)|
    ensures fixed == wrong - Elements(req.records)
  {
    var unwanted := wrong - Elements(req.records);
    var (more, less) := if unwanted <= fixed then (fixed, unwanted) else (unwanted, fixed);
    DifferenceSize(more, less);
    assert more - less == {};
  }

  /** The attempt that is refused its first call after all deletions. */
  function CutBeforeCreating(index: Index): Attempt
  {
    Attempt(Faults(false, |index.Keys|, false), Err(CallFailed), |index.Keys|, Log(index, index.Keys, map[]))
  }

  lemma {:induction false} DisjointMinus(a: set<string>, b: set<string>)
    requires a * b == {}
    ensures a - b == a
  {
    assert forall x | x in a :: x !in a * b;
  }

  lemma {:induction false} StopsAfterDeletions(wrong: set<string>, published: set<string>, req: UpsertRequest)
    requires wrong - Elements(req.records) == published && |wrong| > |published|
    ensures StopsAt(wrong, req, Faults(false, |published|, false), |published|, published)
  {
  }

  lemma {:induction false} CutIsEdited(before: Zone, index: Index, goal: Goal)
    requires index.Keys * goal.wanted == {}
    ensures Edited(before, Edit(before, index, goal, index.Keys, map[]), index, goal, index.Keys, map[])
  {
    DisjointMinus(index.Keys, goal.wanted);
    DeletionsCreateNothing(before, index, goal, index.Keys);
  }

  lemma {:induction false} CutStops(before: Zone, index: Index, req: UpsertRequest)
    requires IsIndex(before, req.name, index) && |req.records| > 0 && index.Keys * Elements(req.records) == {}
    ensures
      var wrong := Wrong(before, index, GoalOf(req));
      |wrong| > |index.Keys| && StopsAt(wrong, req, Faults(false, |index.Keys|, false), |index.Keys|, index.Keys)
  {
    DisjointDiff(before, index, req, index.Keys);
    WrongAddresses(before, index, req);
    DisjointMinus(index.Keys, Elements(req.records));
    StopsAfterDeletions(Wrong(before, index, GoalOf(req)), index.Keys, req);
  }

  lemma {:induction false} CutHasEffect(
    before: Zone, after: Zone, req: UpsertRequest, faults: Faults, index: Index, fixed: set<string>)
    requires ValidateUpsertRequest(req).Ok? && IsIndex(before, req.name, index) && !faults.listFails
    requires Edited(before, after, index, GoalOf(req), fixed, map[])
    requires |Wrong(before, index, GoalOf(req))| > faults.good
    requires StopsAt(Wrong(before, index, GoalOf(req)), req, faults, faults.good, fixed)
    ensures UpsertEffect(before, after, req, faults, Err(CallFailed), faults.good, index, fixed, map[])
  {
  }

  /** Such an attempt exists whenever nothing published is requested. */
  lemma {:induction false} GapIsReachable(before: Zone, req: UpsertRequest) returns (after: Zone, t: Attempt)
    requires DuplicateFree(before, req.name) && ValidateUpsertRequest(req).Ok?
    requires Published(before, req.name) * Elements(req.records) == {}
    ensures Turns(before, after, req, t) && Published(after, req.name) == {}
  {
    var index := IndexOf(before, req.name);
    assert index.Keys == Published(before, req.name);
    ValidRequestsAddresses(req);
    after, t := Edit(before, index, GoalOf(req), index.Keys, map[]), CutBeforeCreating(index);
    CutIsEdited(before, index, GoalOf(req));
    CutStops(before, index, req);
    CutHasEffect(before, after, req, t.faults, index, index.Keys);
    FailoverGap(before, after, req, t);
  }

  /**
   * A name keeps being published throughout, whatever calls fail, iff the request retains at least one of
   * the addresses published before.
   */
  lemma {:induction false} NeverEmptyExactly(before: Zone, req: UpsertRequest)
    requires DuplicateFree(before, req.name) && ValidateUpsertRequest(req).Ok?
    ensures (forall after, t | Turns(before, after, req, t) :: Published(after, req.name) != {})
       <==> Published(before, req.name) * Elements(req.records) != {}
  {
    if Published(before, req.name) * Elements(req.records) != {} {
      forall after, t | Turns(before, after, req, t)
        ensures Published(after, req.name) != {}
      {
        AttemptStaysBetween(before, after, req, t);
      }
    } else {
      var after, t := GapIsReachable(before, req);
    }
  }

  /** With an unwanted address published twice, a successful upsert still publishes it. */
  lemma DuplicateSurvives(before: Zone, after: Zone, req: UpsertRequest, t: Attempt, ip: string)
    requires Turns(before, after, req, t) && t.outcome.Ok?
    requires Duplicated(before, req.name, ip) && ip !in req.records
    ensures ip in Published(after, req.name)
  {
    TurnsExplained(before, after, req, t);
    PublishedAfter(before, after, t.log.index, GoalOf(req), t.log.fixed, t.log.created, ip);
  }
}
