/**
 * Upserts of any request, those that name an address more than once included (internal/dns/cloudflare.go). Two
 * backends of one config may share an address.
 */
module RepeatedRequests {
  import opened Types
  import opened Provider
  import opened Cloudflare

  // ---------- What the second loop leaves ----------

  /** How many of the first n requested addresses have no record to retain. */
  function Missing(index: Index, req: UpsertRequest, n: nat): nat
    requires n <= |req.records|
  {
    if n == 0 then 0 else Missing(index, req, n - 1) + (if req.records[n - 1] in index then 0 else 1)
  }

  lemma {:induction false} MissingGrows(index: Index, req: UpsertRequest, i: nat, n: nat)
    requires i < n <= |req.records|
    ensures Missing(index, req, i) + (if req.records[i] in index then 0 else 1) <= Missing(index, req, n)
  {
    if i < n - 1 {
      MissingGrows(index, req, i, n - 1);
    }
  }

  /** The same record, whatever its TTL. */
  predicate Same(a: DnsRecord, b: DnsRecord) { a.(ttl := 0) == b.(ttl := 0) }

  predicate Retained(listing: Zone, index: Index, req: UpsertRequest, zone: Zone)
    requires IsIndex(listing, req.name, index)
  {
    forall ip | ip in index && ip in req.records :: index[ip] in zone && Same(zone[index[ip]], listing[index[ip]])
  }

  /** No record below the ID has come, gone or become another. */
  predicate Kept(before: Zone, after: Zone, nextId: nat)
  {
    forall id: nat | id < nextId :: (id in after <==> id in before) && (id in before ==> Same(after[id], before[id]))
  }

  /** The i-th turn creates the record with the ID, if its address is missing. */
  predicate Makes(index: Index, req: UpsertRequest, i: nat, nextId: nat, id: nat)
    requires i < |req.records|
  {
    req.records[i] !in index && id == nextId + Missing(index, req, i)
  }

  predicate HasRecord(zone: Zone, id: nat, name: string, ip: string)
  {
    Listed(zone, name, id) && zone[id].content == ip
  }

  predicate MadeBy(index: Index, req: UpsertRequest, i: nat, zone: Zone, nextId: nat)
    requires i < |req.records|
  {
    req.records[i] !in index ==> HasRecord(zone, nextId + Missing(index, req, i), req.name, req.records[i])
  }

  /** The first n turns have created one record for each occurrence of a missing address, under successive IDs. */
  predicate Made(index: Index, req: UpsertRequest, n: nat, zone: Zone, nextId: nat)
    requires n <= |req.records|
  {
    forall i | 0 <= i < n :: MadeBy(index, req, i, zone, nextId)
  }

  /** And no other. */
  predicate OnlyMade(index: Index, req: UpsertRequest, n: nat, zone: Zone, nextId: nat)
    requires n <= |req.records|
  {
    forall id | id in zone && id >= nextId :: exists i | 0 <= i < n :: Makes(index, req, i, nextId, id)
  }

  predicate Left(index: Index, req: UpsertRequest, n: nat, s: Stage, r: Stage)
    requires n <= |req.records|
  {
    && r.nextId == s.nextId + Missing(index, req, n)
    && Kept(s.zone, r.zone, s.nextId)
    && Made(index, req, n, r.zone, s.nextId)
    && OnlyMade(index, req, n, r.zone, s.nextId)
  }

  lemma {:induction false} RetainedTurn(listing: Zone, index: Index, req: UpsertRequest, i: nat, s: Stage, r: Stage)
    requires IsIndex(listing, req.name, index) && i < |req.records| && req.records[i] in index
    requires Fresh(s) && Retained(listing, index, req, s.zone) && Left(index, req, i, s, r)
    ensures Left(index, req, i + 1, s, Put(listing, index, req, i, r))
  {
    var id, after := index[req.records[i]], Put(listing, index, req, i, r);
    assert id in s.zone && id < s.nextId && id in r.zone;
    forall k | 0 <= k < i + 1
      ensures MadeBy(index, req, k, after.zone, s.nextId)
    {
      assert k < i ==> MadeBy(index, req, k, r.zone, s.nextId);
    }
    forall other | other in after.zone && other >= s.nextId
      ensures exists k | 0 <= k < i + 1 :: Makes(index, req, k, s.nextId, other)
    {
      var k :| 0 <= k < i && Makes(index, req, k, s.nextId, other);
    }
  }

  lemma {:induction false} MissingTurn(listing: Zone, index: Index, req: UpsertRequest, i: nat, s: Stage, r: Stage)
    requires IsIndex(listing, req.name, index) && i < |req.records| && req.records[i] !in index
    requires Left(index, req, i, s, r)
    ensures Left(index, req, i + 1, s, Put(listing, index, req, i, r))
  {
    var after := Put(listing, index, req, i, r);
    forall k | 0 <= k < i + 1
      ensures MadeBy(index, req, k, after.zone, s.nextId)
    {
      if k < i {
        assert MadeBy(index, req, k, r.zone, s.nextId);
        MissingGrows(index, req, k, i);
      }
    }
    forall other | other in after.zone && other >= s.nextId
      ensures exists k | 0 <= k < i + 1 :: Makes(index, req, k, s.nextId, other)
    {
      if other == r.nextId {
        assert Makes(index, req, i, s.nextId, other);
      } else {
        var k :| 0 <= k < i && Makes(index, req, k, s.nextId, other);
      }
    }
  }

  lemma {:induction false} Turn(listing: Zone, index: Index, req: UpsertRequest, i: nat, s: Stage, r: Stage)
    requires IsIndex(listing, req.name, index) && i < |req.records|
    requires Fresh(s) && Retained(listing, index, req, s.zone) && Left(index, req, i, s, r)
    ensures Left(index, req, i + 1, s, Put(listing, index, req, i, r))
  {
    if req.records[i] in index {
      RetainedTurn(listing, index, req, i, s, r);
    } else {
      MissingTurn(listing, index, req, i, s, r);
    }
  }

  lemma {:induction false} NoTurn(index: Index, req: UpsertRequest, s: Stage)
    requires Fresh(s)
    ensures Left(index, req, 0, s, s)
  {
  }

  lemma {:induction false} PutAllLeaves(listing: Zone, index: Index, req: UpsertRequest, n: nat, s: Stage)
    requires IsIndex(listing, req.name, index) && n <= |req.records|
    requires Fresh(s) && Retained(listing, index, req, s.zone)
    ensures Left(index, req, n, s, PutAll(listing, index, req, n, s))
  {
    if n == 0 {
      NoTurn(index, req, s);
    } else {
      PutAllLeaves(listing, index, req, n - 1, s);
      Turn(listing, index, req, n - 1, s, PutAll(listing, index, req, n - 1, s));
    }
  }

  // ---------- What is listed afterwards ----------

  ghost function AfterDeletions(before: Stage, req: UpsertRequest, index: Index, deleted: set<string>): Stage
  {
    before.(zone := Edit(before.zone, index, GoalOf(req), deleted, map[]))
  }

  lemma {:induction false} DeletionsLeave(before: Stage, req: UpsertRequest, index: Index, deleted: set<string>)
    requires IsIndex(before.zone, req.name, index) && Fresh(before) && deleted <= Unwanted(index, req)
    ensures
      var mid := AfterDeletions(before, req, index, deleted);
      && Fresh(mid) && Retained(before.zone, index, req, mid.zone)
      && (forall id | id in mid.zone :: id in before.zone && mid.zone[id] == before.zone[id])
  {
  }

  predicate MakesFor(index: Index, req: UpsertRequest, i: nat, nextId: nat, id: nat, ip: string)
    requires i < |req.records|
  {
    Makes(index, req, i, nextId, id) && req.records[i] == ip
  }

  lemma {:induction false} NewIsMade(index: Index, req: UpsertRequest, n: nat, s: Stage, r: Stage, id: nat)
    requires n <= |req.records| && Left(index, req, n, s, r) && id in r.zone && id >= s.nextId
    ensures exists i | 0 <= i < n :: MakesFor(index, req, i, s.nextId, id, r.zone[id].content)
  {
    var i :| 0 <= i < n && Makes(index, req, i, s.nextId, id);
    assert MadeBy(index, req, i, r.zone, s.nextId);
    assert MakesFor(index, req, i, s.nextId, id, r.zone[id].content);
  }

  lemma {:induction false} OldIsKept(index: Index, req: UpsertRequest, n: nat, s: Stage, r: Stage, id: nat)
    requires n <= |req.records| && Left(index, req, n, s, r) && Listed(r.zone, req.name, id) && id < s.nextId
    ensures HasRecord(s.zone, id, req.name, r.zone[id].content)
  {
    assert Same(r.zone[id], s.zone[id]);
  }

  /** An address listed after the loops is published by a record from before, or was missing and requested. */
  lemma {:induction false} ListedIs(index: Index, req: UpsertRequest, n: nat, s: Stage, r: Stage, id: nat)
    requires n <= |req.records| && Left(index, req, n, s, r) && Listed(r.zone, req.name, id)
    ensures
      if id < s.nextId then HasRecord(s.zone, id, req.name, r.zone[id].content)
      else exists i | 0 <= i < n :: MakesFor(index, req, i, s.nextId, id, r.zone[id].content)
  {
    if id < s.nextId {
      OldIsKept(index, req, n, s, r, id);
    } else {
      NewIsMade(index, req, n, s, r, id);
    }
  }

  lemma {:induction false} OldIsListed(index: Index, req: UpsertRequest, n: nat, s: Stage, r: Stage, id: nat)
    requires n <= |req.records| && Left(index, req, n, s, r) && Fresh(s) && Listed(s.zone, req.name, id)
    ensures HasRecord(r.zone, id, req.name, s.zone[id].content)
  {
    assert id < s.nextId;
    assert Same(r.zone[id], s.zone[id]);
  }

  // ---------- Duplicates ----------

  /** Every address named more than once is among the given ones. */
  predicate RepeatsIn(ips: set<string>, req: UpsertRequest)
  {
    forall i, j | 0 <= i < j < |req.records| && req.records[i] == req.records[j] :: req.records[i] in ips
  }

  lemma {:induction false} NoDuplicateMade(
    listing: Zone, index: Index, req: UpsertRequest, s: Stage, r: Stage, a: nat, b: nat)
    requires IsIndex(listing, req.name, index) && Left(index, req, |req.records|, s, r)
    requires RepeatsIn(index.Keys, req)
    requires DuplicateFree(s.zone, req.name)
    requires forall id | id in s.zone && Listed(s.zone, req.name, id) :: s.zone[id].content in index
    requires a != b && Listed(r.zone, req.name, a) && Listed(r.zone, req.name, b)
    ensures r.zone[a].content != r.zone[b].content
  {
    ListedIs(index, req, |req.records|, s, r, a);
    ListedIs(index, req, |req.records|, s, r, b);
  }

  lemma {:induction false} DuplicateMade(
    index: Index, req: UpsertRequest, s: Stage, r: Stage, i: nat, j: nat)
    requires Left(index, req, |req.records|, s, r)
    requires i < j < |req.records| && req.records[i] == req.records[j] && req.records[i] !in index
    ensures !DuplicateFree(r.zone, req.name)
  {
    assert MadeBy(index, req, i, r.zone, s.nextId) && MadeBy(index, req, j, r.zone, s.nextId);
    MissingGrows(index, req, i, j);
  }

  lemma {:induction false} DeletionsKeepDuplicateFree(before: Stage, req: UpsertRequest, index: Index)
    requires IsIndex(before.zone, req.name, index) && DuplicateFree(before.zone, req.name)
    ensures DuplicateFree(AfterDeletions(before, req, index, Unwanted(index, req)).zone, req.name)
  {
    var goal, deleted := GoalOf(req), Unwanted(index, req);
    DeletionsCreateNothing(before.zone, index, goal, deleted);
    EditKeepsDuplicateFree(before.zone, AfterDeletions(before, req, index, deleted).zone, index, goal, deleted, map[]);
  }

  lemma {:induction false} LeftDuplicateFreeExactly(
    listing: Zone, index: Index, req: UpsertRequest, s: Stage, r: Stage)
    requires IsIndex(listing, req.name, index) && Left(index, req, |req.records|, s, r)
    requires DuplicateFree(s.zone, req.name)
    requires forall id | id in s.zone && Listed(s.zone, req.name, id) :: s.zone[id].content in index
    ensures DuplicateFree(r.zone, req.name) <==> RepeatsIn(index.Keys, req)
  {
    if RepeatsIn(index.Keys, req) {
      forall a, b | a in r.zone && b in r.zone && a != b && Listed(r.zone, req.name, a) && Listed(r.zone, req.name, b)
        ensures r.zone[a].content != r.zone[b].content
      {
        NoDuplicateMade(listing, index, req, s, r, a, b);
      }
    } else {
      var i, j :| 0 <= i < j < |req.records| && req.records[i] == req.records[j] && req.records[i] !in index.Keys;
      DuplicateMade(index, req, s, r, i, j);
    }
  }

  lemma {:induction false} IndexPublishes(zone: Zone, name: string, index: Index)
    requires IsIndex(zone, name, index)
    ensures index.Keys == Published(zone, name)
  {
  }

  /**
   * A completed upsert keeps a name free of duplicates iff every address it names more than once was published
   * before: a missing one is created each time.
   */
  lemma {:induction false} CompletedIsDuplicateFreeExactly(
    before: Stage, after: Stage, req: UpsertRequest, faults: Faults, calls: nat,
    index: Index, deleted: set<string>, done: nat)
    requires Fresh(before) && DuplicateFree(before.zone, req.name)
    requires AnyEffect(before, after, req, faults, Ok, calls, index, deleted, done)
    ensures DuplicateFree(after.zone, req.name) <==> RepeatsIn(Published(before.zone, req.name), req)
  {
    var mid := AfterDeletions(before, req, index, deleted);
    DeletionsLeave(before, req, index, deleted);
    DeletionsKeepDuplicateFree(before, req, index);
    PutAllLeaves(before.zone, index, req, |req.records|, mid);
    IndexPublishes(before.zone, req.name, index);
    LeftDuplicateFreeExactly(before.zone, index, req, mid, after);
  }

  // ---------- Cut-offs ----------

  lemma {:induction false} DeletionsStayBetween(before: Stage, req: UpsertRequest, index: Index, deleted: set<string>)
    requires IsIndex(before.zone, req.name, index) && deleted <= Unwanted(index, req)
    ensures
      var mid := Published(AfterDeletions(before, req, index, deleted).zone, req.name);
      Published(before.zone, req.name) * Elements(req.records) <= mid <= Published(before.zone, req.name)
  {
    var mid := AfterDeletions(before, req, index, deleted).zone;
    DeletionsCreateNothing(before.zone, index, GoalOf(req), deleted);
    forall ip
      ensures ip in Published(mid, req.name) ==> ip in Published(before.zone, req.name)
      ensures ip in Published(before.zone, req.name) && ip in req.records ==> ip in Published(mid, req.name)
    {
      PublishedAfter(before.zone, mid, index, GoalOf(req), deleted, map[], ip);
    }
  }

  lemma {:induction false} TurnsStayBetween(index: Index, req: UpsertRequest, n: nat, s: Stage, r: Stage)
    requires n <= |req.records| && Left(index, req, n, s, r) && Fresh(s)
    ensures
      var old', new' := Published(s.zone, req.name), Published(r.zone, req.name);
      old' <= new' <= old' + Elements(req.records)
  {
    forall id | id in s.zone && Listed(s.zone, req.name, id)
      ensures HasRecord(r.zone, id, req.name, s.zone[id].content)
    {
      OldIsListed(index, req, n, s, r, id);
    }
    forall id | id in r.zone && Listed(r.zone, req.name, id)
      ensures r.zone[id].content in Published(s.zone, req.name) + Elements(req.records)
    {
      ListedIs(index, req, n, s, r, id);
    }
  }

  /** Whatever a request repeats and whatever fails, nothing wanted disappears and nothing unasked appears. */
  lemma {:induction false} AnyStaysBetween(
    before: Stage, after: Stage, req: UpsertRequest, faults: Faults, outcome: Outcome, calls: nat,
    index: Index, deleted: set<string>, done: nat)
    requires Fresh(before) && AnyEffect(before, after, req, faults, outcome, calls, index, deleted, done)
    ensures Published(before.zone, req.name) * Elements(req.records) <= Published(after.zone, req.name)
    ensures Published(after.zone, req.name) <= Published(before.zone, req.name) + Elements(req.records)
  {
    if ValidateUpsertRequest(req).Ok? && !faults.listFails {
      var mid := AfterDeletions(before, req, index, deleted);
      DeletionsLeave(before, req, index, deleted);
      DeletionsStayBetween(before, req, index, deleted);
      PutAllLeaves(before.zone, index, req, done, mid);
      TurnsStayBetween(index, req, done, mid, after);
    }
  }

  // ---------- Completion ----------

  lemma {:induction false} CallsForAtMost(listing: Zone, index: Index, req: UpsertRequest, n: nat)
    requires IsIndex(listing, req.name, index) && n <= |req.records|
    ensures CallsFor(listing, index, req, n) <= n
  {
    if n > 0 {
      CallsForAtMost(listing, index, req, n - 1);
    }
  }

  /** After the deletions only requested addresses are published. */
  lemma {:induction false} DeletionsLeaveRequested(before: Stage, req: UpsertRequest, index: Index)
    requires IsIndex(before.zone, req.name, index) && DuplicateFree(before.zone, req.name)
    ensures Published(AfterDeletions(before, req, index, Unwanted(index, req)).zone, req.name) <= Elements(req.records)
  {
    var goal, deleted := GoalOf(req), Unwanted(index, req);
    var mid := AfterDeletions(before, req, index, deleted).zone;
    DeletionsCreateNothing(before.zone, index, goal, deleted);
    IndexPublishes(before.zone, req.name, index);
    forall ip | ip in Published(mid, req.name)
      ensures ip in req.records
    {
      PublishedAfter(before.zone, mid, index, goal, deleted, map[], ip);
      NotDuplicated(before.zone, req.name, ip);
    }
  }

  lemma {:induction false} RequestedIsListed(
    listing: Zone, index: Index, req: UpsertRequest, s: Stage, r: Stage, i: nat)
    requires IsIndex(listing, req.name, index) && Left(index, req, |req.records|, s, r) && i < |req.records|
    requires Fresh(s) && Retained(listing, index, req, s.zone)
    ensures req.records[i] in Published(r.zone, req.name)
  {
    var ip := req.records[i];
    if ip in index {
      OldIsListed(index, req, |req.records|, s, r, index[ip]);
    } else {
      assert MadeBy(index, req, i, r.zone, s.nextId);
    }
  }

  lemma {:induction false} EnoughCallsFinish(
    before: Stage, after: Stage, req: UpsertRequest, faults: Faults, ok: bool, calls: nat,
    index: Index, deleted: set<string>, done: nat)
    requires IsIndex(before.zone, req.name, index) && Loops(before, after, req, faults, ok, calls, index, deleted, done)
    requires faults.good >= |Unwanted(index, req)| + |req.records|
    ensures ok && deleted == Unwanted(index, req) && done == |req.records|
  {
    CallsForAtMost(before.zone, index, req, |req.records|);
  }

  lemma {:induction false} FinishedPublishes(before: Stage, req: UpsertRequest, index: Index, after: Stage)
    requires Fresh(before) && DuplicateFree(before.zone, req.name) && IsIndex(before.zone, req.name, index)
    requires after == PutAll(before.zone, index, req, |req.records|,
                             AfterDeletions(before, req, index, Unwanted(index, req)))
    ensures Published(after.zone, req.name) == Elements(req.records)
  {
    var mid := AfterDeletions(before, req, index, Unwanted(index, req));
    DeletionsLeave(before, req, index, Unwanted(index, req));
    DeletionsLeaveRequested(before, req, index);
    PutAllLeaves(before.zone, index, req, |req.records|, mid);
    TurnsStayBetween(index, req, |req.records|, mid, after);
    forall i | 0 <= i < |req.records|
      ensures req.records[i] in Published(after.zone, req.name)
    {
      RequestedIsListed(before.zone, index, req, mid, after, i);
    }
  }

  /**
   * Given enough working calls, one for each address to delete and each requested one, any valid request
   * succeeds, and then exactly the requested addresses are published, however it repeats them.
   */
  lemma {:induction false} EnoughCallsComplete(
    before: Stage, after: Stage, req: UpsertRequest, faults: Faults, outcome: Outcome, calls: nat,
    index: Index, deleted: set<string>, done: nat)
    requires Fresh(before) && DuplicateFree(before.zone, req.name)
    requires AnyEffect(before, after, req, faults, outcome, calls, index, deleted, done)
    requires req.name != "" && req.ttl > 0 && req.records != [] && "" !in req.records && !faults.listFails
    requires faults.good >= |Published(before.zone, req.name) - Elements(req.records)| + |req.records|
    ensures outcome == Ok && Published(after.zone, req.name) == Elements(req.records)
  {
    IndexPublishes(before.zone, req.name, index);
    EnoughCallsFinish(before, after, req, faults, outcome.Ok?, calls, index, deleted, done);
    FinishedPublishes(before, req, index, after);
  }
}
