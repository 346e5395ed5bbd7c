/** The set-diff upsert against a zone edited one call at a time (internal/dns/cloudflare.go). */
module Cloudflare {
  import opened Types
  import opened Provider

  // ---------- The remote zone ----------

  datatype DnsRecord = DnsRecord(name: string, kind: string, content: string, ttl: int)

  /** Every record of the zone by its ID, A records and others. */
  type Zone = map<nat, DnsRecord>

  /** What ListDNSRecords with a name and type A returns. */
  predicate Listed(zone: Zone, name: string, id: nat)
  {
    id in zone && zone[id].name == name && zone[id].kind == "A"
  }

  function Published(zone: Zone, name: string): set<string>
  {
    set id | id in zone && Listed(zone, name, id) :: zone[id].content
  }

  /** No address is published by two records of the name. */
  predicate DuplicateFree(zone: Zone, name: string)
  {
    forall i, j | i in zone && j in zone && i != j && Listed(zone, name, i) && Listed(zone, name, j) ::
      zone[i].content != zone[j].content
  }

  predicate Duplicated(zone: Zone, name: string, ip: string)
  {
    exists i, j | i in zone && j in zone ::
      i != j && Listed(zone, name, i) && Listed(zone, name, j) && zone[i].content == zone[j].content == ip
  }

  // ---------- The diff ----------

  /** One listed record per published address: for a duplicated address, the one listed last. */
  type Index = map<string, nat>

  predicate IsIndex(zone: Zone, name: string, index: Index)
  {
    && (forall ip | ip in index :: Listed(zone, name, index[ip]) && zone[index[ip]].content == ip)
    && (forall id | id in zone && Listed(zone, name, id) :: zone[id].content in index)
  }

  /** What an upsert wants for a name. */
  datatype Goal = Goal(name: string, ttl: int, wanted: set<string>)

  /** Addresses that are not as requested: unwanted, missing, or with another TTL. */
  function Wrong(zone: Zone, index: Index, goal: Goal): set<string>
    requires IsIndex(zone, goal.name, index)
  {
    (index.Keys - goal.wanted) + (goal.wanted - index.Keys) + WrongTtl(zone, index, goal)
  }

  function WrongTtl(zone: Zone, index: Index, goal: Goal): set<string>
    requires IsIndex(zone, goal.name, index)
  {
    set ip | ip in index && ip in goal.wanted && zone[index[ip]].ttl != goal.ttl
  }

  /** A requested address has no record, or one with another TTL. */
  predicate NeedsCall(zone: Zone, index: Index, goal: Goal, ip: string)
    requires IsIndex(zone, goal.name, index)
  {
    ip in index ==> zone[index[ip]].ttl != goal.ttl
  }

  predicate Removed(zone: Zone, index: Index, goal: Goal, fixed: set<string>, id: nat)
  {
    && Listed(zone, goal.name, id)
    && var ip := zone[id].content;
       ip in fixed - goal.wanted && ip in index && index[ip] == id
  }

  predicate Retouched(zone: Zone, index: Index, goal: Goal, fixed: set<string>, id: nat)
  {
    && Listed(zone, goal.name, id)
    && var ip := zone[id].content;
       ip in fixed * goal.wanted && ip in index && index[ip] == id
  }

  /** New records by ID: the address each one publishes. */
  type Created = map<nat, string>

  /** The records an edit keeps, deletes, gives the TTL and adds. */
  ghost function Edit(before: Zone, index: Index, goal: Goal, fixed: set<string>, created: Created): Zone
  {
    map id | id in before.Keys + created.Keys && !Removed(before, index, goal, fixed, id) ::
      if id !in before then DnsRecord(goal.name, "A", created[id], goal.ttl)
      else if Retouched(before, index, goal, fixed, id) then before[id].(ttl := goal.ttl)
      else before[id]
  }

  /** One new record, under a new ID, for each fixed address that had none. */
  ghost predicate OneEach(before: Zone, index: Index, goal: Goal, fixed: set<string>, created: Created)
  {
    && created.Keys !! before.Keys
    && (forall i, j | i in created && j in created && i != j :: created[i] != created[j])
    && created.Values == fixed * goal.wanted - index.Keys
  }

  /**
   * after is before with exactly the fixed addresses put right: the indexed record of an unwanted one
   * deleted, that of a wanted one given the TTL, and one new record for each that had none.
   */
  ghost predicate Edited(before: Zone, after: Zone, index: Index, goal: Goal, fixed: set<string>, created: Created)
  {
    after == Edit(before, index, goal, fixed, created) && OneEach(before, index, goal, fixed, created)
  }

  lemma EditNothing(zone: Zone, index: Index, goal: Goal)
    ensures zone == Edit(zone, index, goal, {}, map[])
  {
  }

  lemma EditDelete(before: Zone, index: Index, goal: Goal, fixed: set<string>, ip: string)
    requires IsIndex(before, goal.name, index)
    requires ip in index && ip !in goal.wanted && ip !in fixed
    ensures index[ip] in Edit(before, index, goal, fixed, map[])
    ensures Edit(before, index, goal, fixed + {ip}, map[]) == Edit(before, index, goal, fixed, map[]) - {index[ip]}
  {
  }

  lemma DeletionsCreateNothing(before: Zone, index: Index, goal: Goal, fixed: set<string>)
    requires fixed <= index.Keys - goal.wanted
    ensures OneEach(before, index, goal, fixed, map[])
  {
    assert fixed * goal.wanted == {};
  }

  lemma EditedUpdate(
    before: Zone, after: Zone, index: Index, goal: Goal, fixed: set<string>, created: Created, ip: string)
    requires IsIndex(before, goal.name, index) && Edited(before, after, index, goal, fixed, created)
    requires ip in index && ip in goal.wanted && ip !in fixed
    ensures index[ip] in after
    ensures
      var record := DnsRecord(goal.name, "A", ip, goal.ttl);
      Edited(before, after[index[ip] := record], index, goal, fixed + {ip}, created)
  {
  }

  lemma EditedCreate(before: Zone, after: Zone, index: Index, goal: Goal, fixed: set<string>, created: Created,
                     ip: string, id: nat)
    requires IsIndex(before, goal.name, index) && Edited(before, after, index, goal, fixed, created)
    requires ip !in index && ip in goal.wanted && ip !in fixed && id !in before && id !in after
    ensures
      var record := DnsRecord(goal.name, "A", ip, goal.ttl);
      Edited(before, after[id := record], index, goal, fixed + {ip}, created[id := ip])
  {
    OneEachCreate(before, index, goal, fixed, created, ip, id);
    assert after[id := DnsRecord(goal.name, "A", ip, goal.ttl)]
        == Edit(before, index, goal, fixed + {ip}, created[id := ip]);
  }

  lemma OneEachCreate(before: Zone, index: Index, goal: Goal, fixed: set<string>, created: Created, ip: string, id: nat)
    requires OneEach(before, index, goal, fixed, created)
    requires ip !in index && ip in goal.wanted && ip !in fixed && id !in before && id !in created
    ensures OneEach(before, index, goal, fixed + {ip}, created[id := ip])
  {
    NewRecord(created, id, ip);
    assert (fixed + {ip}) * goal.wanted - index.Keys == fixed * goal.wanted - index.Keys + {ip};
    assert ip !in created.Values;
    assert forall k | k in created :: created[k] in created.Values;
  }

  lemma NewRecord(created: Created, id: nat, ip: string)
    requires id !in created
    ensures created[id := ip].Values == created.Values + {ip}
  {
    var created' := created[id := ip];
    assert created'[id] == ip;
    assert forall k | k in created :: created'[k] == created[k];
  }

  // ---------- Calls that may fail ----------

  /** A refused call changes nothing; one whose reply is lost has changed the zone but reports an error. */
  datatype Fate = Applied | Refused | ReplyLost

  datatype Answer = Deleted | NotFound | CallError

  /** Whether listing fails, and how many editing calls succeed before one does not. */
  datatype Faults = Faults(listFails: bool, good: nat, replyLost: bool)

  function FateOf(faults: Faults, calls: nat): Fate
  {
    if calls < faults.good then Applied else if faults.replyLost then ReplyLost else Refused
  }

  function GoalOf(req: UpsertRequest): Goal { Goal(req.name, req.ttl, Elements(req.records)) }

  /** The wrong addresses put right once all deletions and the first i requested addresses are done. */
  function Reached(wrong: set<string>, req: UpsertRequest, i: nat): set<string>
    requires i <= |req.records|
  {
    (wrong - Elements(req.records)) + wrong * Elements(req.records[..i])
  }

  /** In which order an upsert gets to the wrong addresses: all deletions, then the request's own order. */
  ghost predicate DeletionsFirst(wrong: set<string>, req: UpsertRequest, fixed: set<string>)
  {
    || fixed <= wrong - Elements(req.records)
    || exists i | 0 <= i <= |req.records| :: fixed == Reached(wrong, req, i)
  }

  /** The first call that is not acknowledged ends the upsert; a lost reply still counts as an edit. */
  ghost predicate StopsAt(wrong: set<string>, req: UpsertRequest, faults: Faults, calls: nat, fixed: set<string>)
  {
    && DeletionsFirst(wrong, req, fixed)
    && calls == faults.good < |wrong|
    && |fixed| == faults.good + if faults.replyLost then 1 else 0
  }

  /** Every wrong address has been put right by an acknowledged call. */
  ghost predicate Completed(before: Zone, after: Zone, req: UpsertRequest, faults: Faults,
                            calls: nat, index: Index, fixed: set<string>, created: Created)
    requires IsIndex(before, req.name, index)
  {
    && Edited(before, after, index, GoalOf(req), fixed, created)
    && fixed == Wrong(before, index, GoalOf(req))
    && calls == |fixed| <= faults.good
  }

  ghost predicate Stopped(before: Zone, after: Zone, req: UpsertRequest, faults: Faults,
                          calls: nat, index: Index, fixed: set<string>, created: Created)
    requires IsIndex(before, req.name, index)
  {
    && Edited(before, after, index, GoalOf(req), fixed, created)
    && StopsAt(Wrong(before, index, GoalOf(req)), req, faults, calls, fixed)
  }

  /** What one upsert does to the zone, and what it reports. */
  ghost predicate UpsertEffect(before: Zone, after: Zone, req: UpsertRequest, faults: Faults,
                               outcome: Outcome, calls: nat, index: Index, fixed: set<string>, created: Created)
  {
    if ValidateUpsertRequest(req).Err? then
      outcome == ValidateUpsertRequest(req) && after == before && calls == 0
    else if faults.listFails then
      outcome == Err(CallFailed) && after == before && calls == 0
    else
      && IsIndex(before, req.name, index)
      && if |Wrong(before, index, GoalOf(req))| <= faults.good then
           outcome == Ok && Completed(before, after, req, faults, calls, index, fixed, created)
         else
           outcome == Err(CallFailed) && Stopped(before, after, req, faults, calls, index, fixed, created)
  }

  lemma SubsetSize<T>(a: set<T>, b: set<T>)
    requires a <= b
    ensures |a| <= |b|
  {
    assert b == a + (b - a);
  }

  function Visited(keys: set<string>, remaining: set<string>, desired: set<string>): set<string>
  {
    keys - remaining - desired
  }

  lemma VisitNone(keys: set<string>, desired: set<string>)
    ensures Visited(keys, keys, desired) == {}
    ensures Visited(keys, {}, desired) == keys - desired
  {
  }

  lemma VisitOne(keys: set<string>, remaining: set<string>, desired: set<string>, ip: string)
    requires remaining <= keys && ip in remaining
    ensures
      var visited := Visited(keys, remaining, desired);
      && ip !in visited && |visited + {ip}| == |visited| + 1
      && visited <= Visited(keys, {}, desired)
      && (ip !in desired ==> ip in Visited(keys, {}, desired))
      && Visited(keys, remaining - {ip}, desired) == if ip in desired then visited else visited + {ip}
  {
  }

  lemma {:induction false} ReachedStep(wrong: set<string>, req: UpsertRequest, i: nat)
    requires i < |req.records| && Distinct(req.records)
    ensures
      var ip, reached := req.records[i], Reached(wrong, req, i);
      && ip !in reached && |reached + {ip}| == |reached| + 1
      && Reached(wrong, req, i + 1) == if ip in wrong then reached + {ip} else reached
  {
    assert Elements(req.records[..i + 1]) == Elements(req.records[..i]) + {req.records[i]};
  }

  lemma ReachedEnds(wrong: set<string>, req: UpsertRequest)
    ensures Reached(wrong, req, 0) == wrong - Elements(req.records)
    ensures Reached(wrong, req, |req.records|) == wrong
  {
    assert req.records[..|req.records|] == req.records;
  }

  /** The wrong addresses as the two loops meet them. */
  lemma WrongAddresses(before: Zone, index: Index, req: UpsertRequest)
    requires IsIndex(before, req.name, index)
    ensures
      var wrong, desired := Wrong(before, index, GoalOf(req)), Elements(req.records);
      && wrong - desired == Visited(index.Keys, {}, desired) == index.Keys - desired == Reached(wrong, req, 0)
      && Reached(wrong, req, |req.records|) == wrong
      && forall ip | ip in req.records :: ip in wrong <==> NeedsCall(before, index, GoalOf(req), ip)
  {
    ReachedEnds(Wrong(before, index, GoalOf(req)), req);
  }

  lemma {:induction false} StoppedDeleting(wrong: set<string>, req: UpsertRequest, faults: Faults, deleted: set<string>)
    requires deleted <= wrong - Elements(req.records) && faults.good < |wrong - Elements(req.records)|
    requires |deleted| == faults.good + if faults.replyLost then 1 else 0
    ensures StopsAt(wrong, req, faults, faults.good, deleted)
  {
    SubsetSize(wrong - Elements(req.records), wrong);
  }

  lemma {:induction false} StoppedEditing(wrong: set<string>, req: UpsertRequest, faults: Faults, i: nat)
    requires i < |req.records| && Distinct(req.records) && req.records[i] in wrong
    requires |Reached(wrong, req, i)| == faults.good
    ensures
      var reached := Reached(wrong, req, i);
      StopsAt(wrong, req, faults, |reached|, if faults.replyLost then reached + {req.records[i]} else reached)
  {
    ReachedStep(wrong, req, i);
    SubsetSize(Reached(wrong, req, i + 1), wrong);
  }

  // ---------- The second loop on values ----------

  /** The zone and the next ID it hands out. */
  datatype Stage = Stage(zone: Zone, nextId: nat)

  /** One turn that takes effect, for the i-th requested address: the listing, not the zone, says what to do. */
  function Put(listing: Zone, index: Index, req: UpsertRequest, i: nat, s: Stage): (r: Stage)
    requires IsIndex(listing, req.name, index) && i < |req.records|
    ensures s.zone.Keys <= r.zone.Keys
  {
    var ip := req.records[i];
    var record := DnsRecord(req.name, "A", ip, req.ttl);
    if !NeedsCall(listing, index, GoalOf(req), ip) then s
    else if ip in index then s.(zone := s.zone[index[ip] := record])
    else Stage(s.zone[s.nextId := record], s.nextId + 1)
  }

  function PutAll(listing: Zone, index: Index, req: UpsertRequest, n: nat, s: Stage): (r: Stage)
    requires IsIndex(listing, req.name, index) && n <= |req.records|
    ensures s.zone.Keys <= r.zone.Keys
  {
    if n == 0 then s else Put(listing, index, req, n - 1, PutAll(listing, index, req, n - 1, s))
  }

  /** The calls the first n turns make; a repeated address is called for each time. */
  function CallsFor(listing: Zone, index: Index, req: UpsertRequest, n: nat): nat
    requires IsIndex(listing, req.name, index) && n <= |req.records|
  {
    if n == 0 then 0 else
      CallsFor(listing, index, req, n - 1) +
      (if NeedsCall(listing, index, GoalOf(req), req.records[n - 1]) then 1 else 0)
  }

  lemma {:induction false} CallsForGrows(listing: Zone, index: Index, req: UpsertRequest, i: nat, n: nat)
    requires IsIndex(listing, req.name, index) && i <= n <= |req.records|
    ensures CallsFor(listing, index, req, i) <= CallsFor(listing, index, req, n)
  {
    if i < n {
      CallsForGrows(listing, index, req, i, n - 1);
    }
  }

  /** The records of retained addresses are still there. */
  predicate Retains(zone: Zone, index: Index, req: UpsertRequest)
  {
    forall ip | ip in index && ip in req.records :: index[ip] in zone
  }

  function Unwanted(index: Index, req: UpsertRequest): set<string> { index.Keys - Elements(req.records) }

  /** The i-th turn makes a call that is not acknowledged; with its reply lost it has taken effect nevertheless. */
  predicate CutAt(listing: Zone, index: Index, req: UpsertRequest, faults: Faults, deleted: nat, i: nat, done: nat)
    requires IsIndex(listing, req.name, index)
  {
    && i < |req.records| && NeedsCall(listing, index, GoalOf(req), req.records[i])
    && deleted + CallsFor(listing, index, req, i) == faults.good
    && done == if faults.replyLost then i + 1 else i
  }

  /** Calls that take effect before the upsert ends. */
  function EffectiveCalls(faults: Faults): nat { faults.good + if faults.replyLost then 1 else 0 }

  /** All wrong addresses put right and paid for, or stopped as the failing call has it. */
  ghost predicate Stands(
    wrong: set<string>, req: UpsertRequest, faults: Faults, ok: bool, calls: nat, fixed: set<string>)
  {
    if ok then fixed == wrong && calls == |fixed| <= faults.good else StopsAt(wrong, req, faults, calls, fixed)
  }

  /** During the deletions, or at one of the requested addresses after them. */
  ghost predicate CutOff(
    listing: Zone, index: Index, req: UpsertRequest, faults: Faults, deleted: set<string>, done: nat)
    requires IsIndex(listing, req.name, index)
  {
    || (faults.good < |Unwanted(index, req)| && done == 0 && |deleted| == EffectiveCalls(faults))
    || (deleted == Unwanted(index, req) && exists i :: CutAt(listing, index, req, faults, |deleted|, i, done))
  }

  /** What the two loops do for any request, repeated addresses included. */
  ghost predicate Loops(before: Stage, after: Stage, req: UpsertRequest, faults: Faults,
                        ok: bool, calls: nat, index: Index, deleted: set<string>, done: nat)
    requires IsIndex(before.zone, req.name, index)
  {
    && deleted <= Unwanted(index, req) && done <= |req.records|
    && after == PutAll(before.zone, index, req, done,
                       before.(zone := Edit(before.zone, index, GoalOf(req), deleted, map[])))
    && var needed := |Unwanted(index, req)| + CallsFor(before.zone, index, req, |req.records|);
       if needed <= faults.good then
         ok && calls == needed && deleted == Unwanted(index, req) && done == |req.records|
       else
         !ok && calls == faults.good && CutOff(before.zone, index, req, faults, deleted, done)
  }

  /** What one upsert of any request does, and what it reports. */
  ghost predicate AnyEffect(before: Stage, after: Stage, req: UpsertRequest, faults: Faults,
                            outcome: Outcome, calls: nat, index: Index, deleted: set<string>, done: nat)
  {
    if ValidateUpsertRequest(req).Err? then
      outcome == ValidateUpsertRequest(req) && after == before && calls == 0
    else if faults.listFails then
      outcome == Err(CallFailed) && after == before && calls == 0
    else
      && IsIndex(before.zone, req.name, index)
      && (outcome == Ok || outcome == Err(CallFailed))
      && Loops(before, after, req, faults, outcome.Ok?, calls, index, deleted, done)
  }

  // ---------- A request without repetitions ----------

  predicate Fresh(s: Stage) { forall id | id in s.zone :: id < s.nextId }

  lemma {:induction false} PutEdits(
    listing: Zone, index: Index, req: UpsertRequest, i: nat, s: Stage, fixed: set<string>, created: Created)
    returns (created': Created)
    requires IsIndex(listing, req.name, index) && i < |req.records| && req.records[i] !in fixed
    requires Fresh(s) && Fresh(s.(zone := listing))
    requires Edited(listing, s.zone, index, GoalOf(req), fixed, created)
    ensures
      var r, ip := Put(listing, index, req, i, s), req.records[i];
      && Fresh(r) && s.nextId <= r.nextId
      && Edited(listing, r.zone, index, GoalOf(req),
                if NeedsCall(listing, index, GoalOf(req), ip) then fixed + {ip} else fixed, created')
  {
    created' := created;
    var ip := req.records[i];
    if NeedsCall(listing, index, GoalOf(req), ip) {
      if ip in index {
        EditedUpdate(listing, s.zone, index, GoalOf(req), fixed, created, ip);
      } else {
        EditedCreate(listing, s.zone, index, GoalOf(req), fixed, created, ip, s.nextId);
        created' := created[s.nextId := ip];
      }
    }
  }

  lemma {:induction false} NextPutEdits(
    listing: Zone, index: Index, req: UpsertRequest, wrong: set<string>, i: nat, s: Stage, created: Created)
    returns (created': Created)
    requires IsIndex(listing, req.name, index) && i < |req.records| && Distinct(req.records)
    requires req.records[i] in wrong <==> NeedsCall(listing, index, GoalOf(req), req.records[i])
    requires Fresh(s) && Fresh(s.(zone := listing))
    requires Edited(listing, s.zone, index, GoalOf(req), Reached(wrong, req, i), created)
    ensures
      var r := Put(listing, index, req, i, s);
      && Fresh(r) && s.nextId <= r.nextId
      && Edited(listing, r.zone, index, GoalOf(req), Reached(wrong, req, i + 1), created')
  {
    NextReached(wrong, req, i);
    created' := PutEdits(listing, index, req, i, s, Reached(wrong, req, i), created);
  }

  /** The turns so far have put right the wrong addresses among the requested ones so far. */
  lemma {:induction false} PutAllEdits(
    listing: Zone, index: Index, req: UpsertRequest, wrong: set<string>, n: nat, s: Stage) returns (created: Created)
    requires IsIndex(listing, req.name, index) && n <= |req.records| && Distinct(req.records)
    requires forall ip | ip in req.records :: ip in wrong <==> NeedsCall(listing, index, GoalOf(req), ip)
    requires Fresh(s) && Fresh(s.(zone := listing))
    requires Edited(listing, s.zone, index, GoalOf(req), Reached(wrong, req, 0), map[])
    ensures
      var r := PutAll(listing, index, req, n, s);
      && Fresh(r) && s.nextId <= r.nextId
      && Edited(listing, r.zone, index, GoalOf(req), Reached(wrong, req, n), created)
  {
    if n == 0 {
      created := map[];
    } else {
      created := PutAllEdits(listing, index, req, wrong, n - 1, s);
      created := NextPutEdits(listing, index, req, wrong, n - 1, PutAll(listing, index, req, n - 1, s), created);
    }
  }

  lemma {:induction false} NextReached(wrong: set<string>, req: UpsertRequest, i: nat)
    requires i < |req.records| && Distinct(req.records)
    ensures
      var ip, reached := req.records[i], Reached(wrong, req, i);
      ip !in reached && Reached(wrong, req, i + 1) == if ip in wrong then reached + {ip} else reached
  {
    ReachedStep(wrong, req, i);
  }

  /** How many entries of a list are wrong. */
  function WrongAmong(wrong: set<string>, records: seq<string>): nat
  {
    if records == [] then 0 else
      WrongAmong(wrong, records[..|records| - 1]) + (if records[|records| - 1] in wrong then 1 else 0)
  }

  lemma {:induction false} AddedSize(wrong: set<string>, some: set<string>, x: string)
    requires x !in some
    ensures |wrong * (some + {x})| == |wrong * some| + (if x in wrong then 1 else 0)
  {
    assert wrong * (some + {x}) == wrong * some + (if x in wrong then {x} else {});
  }

  lemma {:induction false} ElementsSnoc(init: seq<string>, last: string)
    requires Distinct(init + [last])
    ensures last !in Elements(init) && Elements(init + [last]) == Elements(init) + {last}
    ensures Distinct(init)
  {
    var all := init + [last];
    assert forall i, j | 0 <= i < j < |all| :: all[i] != all[j];
    assert forall i | 0 <= i < |init| :: all[i] == init[i] && all[i] != all[|init|];
    assert forall x :: x in all <==> x in init || x == last;
  }

  lemma {:induction false} WrongAmongSize(wrong: set<string>, records: seq<string>)
    requires Distinct(records)
    ensures |wrong * Elements(records)| == WrongAmong(wrong, records)
  {
    if records == [] {
      assert wrong * Elements(records) == {};
    } else {
      var init, last := records[..|records| - 1], records[|records| - 1];
      assert records == init + [last];
      ElementsSnoc(init, last);
      WrongAmongSize(wrong, init);
      AddedSize(wrong, Elements(init), last);
    }
  }

  lemma {:induction false} UnionSize(a: set<string>, b: set<string>)
    requires a !! b
    ensures |a + b| == |a| + |b|
  {
  }

  lemma {:induction false} ReachedAmong(req: UpsertRequest, wrong: set<string>, n: nat)
    requires n <= |req.records| && Distinct(req.records)
    ensures |Reached(wrong, req, n)| == |Reached(wrong, req, 0)| + WrongAmong(wrong, req.records[..n])
  {
    ReachedEnds(wrong, req);
    UnionSize(wrong - Elements(req.records), wrong * Elements(req.records[..n]));
    WrongAmongSize(wrong, req.records[..n]);
  }

  lemma {:induction false} CallsAmong(listing: Zone, index: Index, req: UpsertRequest, wrong: set<string>, n: nat)
    requires IsIndex(listing, req.name, index) && n <= |req.records|
    requires forall ip | ip in req.records :: ip in wrong <==> NeedsCall(listing, index, GoalOf(req), ip)
    ensures CallsFor(listing, index, req, n) == WrongAmong(wrong, req.records[..n])
  {
    if n > 0 {
      CallsAmong(listing, index, req, wrong, n - 1);
      assert req.records[..n][..n - 1] == req.records[..n - 1];
    }
  }

  lemma {:induction false} ReachedCount(listing: Zone, index: Index, req: UpsertRequest, wrong: set<string>, n: nat)
    requires IsIndex(listing, req.name, index) && n <= |req.records| && Distinct(req.records)
    requires forall ip | ip in req.records :: ip in wrong <==> NeedsCall(listing, index, GoalOf(req), ip)
    ensures |Reached(wrong, req, n)| == |Reached(wrong, req, 0)| + CallsFor(listing, index, req, n)
  {
    ReachedAmong(req, wrong, n);
    CallsAmong(listing, index, req, wrong, n);
  }

  /** Cut off at a requested address, the loops have reached it, or stopped before it. */
  lemma {:induction false} CutReaches(
    listing: Zone, index: Index, req: UpsertRequest, faults: Faults, wrong: set<string>, i: nat, done: nat)
    requires IsIndex(listing, req.name, index) && Distinct(req.records) && done <= |req.records|
    requires forall ip | ip in req.records :: ip in wrong <==> NeedsCall(listing, index, GoalOf(req), ip)
    requires CutAt(listing, index, req, faults, |Reached(wrong, req, 0)|, i, done)
    ensures StopsAt(wrong, req, faults, faults.good, Reached(wrong, req, done))
  {
    ReachedCount(listing, index, req, wrong, i);
    StoppedEditing(wrong, req, faults, i);
    NextReached(wrong, req, i);
  }

  /** Both loops done. */
  lemma {:induction false} LoopsComplete(listing: Zone, index: Index, req: UpsertRequest, wrong: set<string>)
    requires IsIndex(listing, req.name, index) && Distinct(req.records)
    requires forall ip | ip in req.records :: ip in wrong <==> NeedsCall(listing, index, GoalOf(req), ip)
    ensures Reached(wrong, req, |req.records|) == wrong
    ensures |wrong| == |Reached(wrong, req, 0)| + CallsFor(listing, index, req, |req.records|)
  {
    ReachedEnds(wrong, req);
    ReachedCount(listing, index, req, wrong, |req.records|);
  }

  /** Where the loops stand for a request without repetitions: exactly the reached addresses have been put right. */
  lemma {:induction false} LoopsEdit(
    before: Stage, after: Stage, req: UpsertRequest, faults: Faults,
    ok: bool, calls: nat, index: Index, deleted: set<string>, done: nat)
    returns (fixed: set<string>, created: Created)
    requires IsIndex(before.zone, req.name, index) && Distinct(req.records) && Fresh(before)
    requires Loops(before, after, req, faults, ok, calls, index, deleted, done)
    ensures Edited(before.zone, after.zone, index, GoalOf(req), fixed, created)
    ensures Stands(Wrong(before.zone, index, GoalOf(req)), req, faults, ok, calls, fixed)
  {
    var wrong, goal := Wrong(before.zone, index, GoalOf(req)), GoalOf(req);
    WrongAddresses(before.zone, index, req);
    DeletionsCreateNothing(before.zone, index, goal, deleted);
    if !ok && faults.good < |Unwanted(index, req)| && done == 0 && |deleted| == EffectiveCalls(faults) {
      fixed, created := deleted, map[];
      StoppedDeleting(wrong, req, faults, deleted);
    } else {
      fixed := Reached(wrong, req, done);
      var start := before.(zone := Edit(before.zone, index, goal, deleted, map[]));
      created := PutAllEdits(before.zone, index, req, wrong, done, start);
      if ok {
        LoopsComplete(before.zone, index, req, wrong);
      } else {
        var i :| CutAt(before.zone, index, req, faults, |deleted|, i, done);
        CutReaches(before.zone, index, req, faults, wrong, i, done);
      }
    }
  }

  lemma {:induction false} DeletionLeft(deleted: set<string>, unwanted: set<string>, ip: string)
    requires deleted <= unwanted && ip in unwanted && ip !in deleted
    ensures |deleted| < |unwanted| && |deleted + {ip}| == |deleted| + 1 && deleted + {ip} <= unwanted
  {
    SubsetSize(deleted + {ip}, unwanted);
  }

  lemma {:induction false} DeletionsRetain(listing: Zone, index: Index, req: UpsertRequest, deleted: set<string>)
    requires IsIndex(listing, req.name, index) && deleted <= Unwanted(index, req)
    ensures Retains(Edit(listing, index, GoalOf(req), deleted, map[]), index, req)
  {
  }

  class CloudflareProvider {
    var zone: Zone
    /** IDs the zone has not handed out yet. */
    var nextId: nat

    predicate Valid()
      reads this
    {
      forall id | id in zone :: id < nextId
    }

    constructor ()
      ensures Valid() && zone == map[]
    {
      zone, nextId := map[], 0;
    }

    /** An acknowledged call finds the record, or answers that there is none. */
    method DeleteDNSRecord(id: nat, fate: Fate) returns (answer: Answer)
      requires Valid()
      modifies this`zone
      ensures Valid()
      ensures answer == if !fate.Applied? then CallError else if id in old(zone) then Deleted else NotFound
      ensures zone == if fate.Refused? then old(zone) else old(zone) - {id}
    {
      answer := if !fate.Applied? then CallError else if id in zone then Deleted else NotFound;
      if !fate.Refused? {
        zone := zone - {id};
      }
    }

    method UpdateDNSRecord(id: nat, record: DnsRecord, fate: Fate) returns (ok: bool)
      requires Valid() && id in zone
      modifies this`zone
      ensures Valid() && ok == fate.Applied?
      ensures zone == if fate.Refused? then old(zone) else old(zone)[id := record]
    {
      if !fate.Refused? {
        zone := zone[id := record];
      }
      return fate.Applied?;
    }

    method CreateDNSRecord(record: DnsRecord, fate: Fate) returns (ok: bool)
      requires Valid()
      modifies this
      ensures Valid() && ok == fate.Applied? && nextId == if fate.Refused? then old(nextId) else old(nextId) + 1
      ensures zone == if fate.Refused? then old(zone) else old(zone)[old(nextId) := record]
    {
      if !fate.Refused? {
        zone := zone[nextId := record];
        nextId := nextId + 1;
      }
      return fate.Applied?;
    }

    method IndexByIP(name: string) returns (existingByIP: Index)
      ensures IsIndex(zone, name, existingByIP)
    {
      existingByIP := map[];
      var existing := set id | id in zone && Listed(zone, name, id);
      ghost var all := existing;
      while existing != {}
        invariant existing <= all
        invariant forall ip | ip in existingByIP ::
          Listed(zone, name, existingByIP[ip]) && zone[existingByIP[ip]].content == ip
        invariant forall id | id in all && id !in existing :: zone[id].content in existingByIP
        decreases existing
      {
        var id :| id in existing;
        existingByIP := existingByIP[zone[id].content := id];
        existing := existing - {id};
      }
    }

    function Current(): Stage
      reads this
    {
      Stage(zone, nextId)
    }

    /** One turn of the first loop that meets an unwanted address. */
    method DeleteIndexed(existingByIP: Index, req: UpsertRequest, faults: Faults, ip: string, calls: nat,
                         ghost before: Zone, ghost deleted: set<string>)
      returns (ok: bool, ghost deleted': set<string>)
      requires Valid() && IsIndex(before, req.name, existingByIP)
      requires ip in Unwanted(existingByIP, req) && ip !in deleted && deleted <= Unwanted(existingByIP, req)
      requires zone == Edit(before, existingByIP, GoalOf(req), deleted, map[]) && calls == |deleted| <= faults.good
      modifies this`zone
      ensures Valid() && zone == Edit(before, existingByIP, GoalOf(req), deleted', map[])
      ensures deleted' <= Unwanted(existingByIP, req)
      ensures ok ==> deleted' == deleted + {ip} && |deleted'| == calls + 1 <= faults.good
      ensures !ok ==> calls == faults.good < |Unwanted(existingByIP, req)| && |deleted'| == EffectiveCalls(faults)
    {
      EditDelete(before, existingByIP, GoalOf(req), deleted, ip);
      DeletionLeft(deleted, Unwanted(existingByIP, req), ip);
      var fate := FateOf(faults, calls);
      var answer := DeleteDNSRecord(existingByIP[ip], fate);
      ok := answer.Deleted?;
      deleted' := if fate.Refused? then deleted else deleted + {ip};
    }

    /** The first loop of UpsertRecord: delete records that are no longer wanted, in any order. */
    method DeleteUnwanted(existingByIP: Index, req: UpsertRequest, faults: Faults)
      returns (ok: bool, calls: nat, ghost deleted: set<string>)
      requires Valid() && IsIndex(zone, req.name, existingByIP)
      modifies this`zone
      ensures Valid() && zone == Edit(old(zone), existingByIP, GoalOf(req), deleted, map[])
      ensures deleted <= Unwanted(existingByIP, req)
      ensures ok ==> deleted == Unwanted(existingByIP, req) && calls == |deleted| <= faults.good
      ensures !ok ==> calls == faults.good < |Unwanted(existingByIP, req)| && |deleted| == EffectiveCalls(faults)
    {
      var desired := Elements(req.records);
      ok, calls, deleted := true, 0, {};
      EditNothing(zone, existingByIP, GoalOf(req));
      var remaining := existingByIP.Keys;
      VisitNone(existingByIP.Keys, desired);
      while remaining != {}
        invariant Valid() && remaining <= existingByIP.Keys
        invariant ok && deleted == Visited(existingByIP.Keys, remaining, desired)
        invariant zone == Edit(old(zone), existingByIP, GoalOf(req), deleted, map[])
        invariant calls == |deleted| <= faults.good
        decreases remaining
      {
        var ip :| ip in remaining;
        VisitOne(existingByIP.Keys, remaining, desired, ip);
        remaining := remaining - {ip};
        if ip !in desired {
          ok, deleted := DeleteIndexed(existingByIP, req, faults, ip, calls, old(zone), deleted);
          if !ok {
            break;
          }
          calls := calls + 1;
        }
      }
    }

    /** One turn of the second loop: put the i-th requested address right. */
    method PutRight(existingByIP: Index, listing: Zone, req: UpsertRequest, i: nat, fate: Fate)
      returns (ok: bool, called: bool)
      requires Valid() && IsIndex(listing, req.name, existingByIP) && Retains(zone, existingByIP, req)
      requires i < |req.records|
      modifies this
      ensures Valid() && Retains(zone, existingByIP, req)
      ensures called <==> NeedsCall(listing, existingByIP, GoalOf(req), req.records[i])
      ensures ok <==> !called || fate.Applied?
      ensures Current() ==
        if called && fate.Refused? then old(Current()) else Put(listing, existingByIP, req, i, old(Current()))
    {
      ok, called := true, false;
      var ip := req.records[i];
      var record := DnsRecord(req.name, "A", ip, req.ttl);
      if ip in existingByIP {
        if listing[existingByIP[ip]].ttl != req.ttl {
          called := true;
          ok := UpdateDNSRecord(existingByIP[ip], record, fate);
        }
      } else {
        called := true;
        ok := CreateDNSRecord(record, fate);
      }
    }

    /** The second loop of UpsertRecord: create or update records, in the order of the request. */
    method EditRequested(existingByIP: Index, listing: Zone, req: UpsertRequest, faults: Faults, deleted: nat)
      returns (ok: bool, calls: nat, ghost done: nat)
      requires Valid() && IsIndex(listing, req.name, existingByIP) && Retains(zone, existingByIP, req)
      requires deleted <= faults.good
      modifies this
      ensures Valid() && done <= |req.records|
      ensures Current() == PutAll(listing, existingByIP, req, done, old(Current()))
      ensures ok ==>
        && done == |req.records|
        && calls == deleted + CallsFor(listing, existingByIP, req, |req.records|) <= faults.good
      ensures !ok ==>
        && calls == faults.good < deleted + CallsFor(listing, existingByIP, req, |req.records|)
        && exists i :: CutAt(listing, existingByIP, req, faults, deleted, i, done)
    {
      ok, calls, done := true, deleted, 0;
      for i := 0 to |req.records|
        invariant Valid() && Retains(zone, existingByIP, req)
        invariant ok && done == i && Current() == PutAll(listing, existingByIP, req, i, old(Current()))
        invariant calls == deleted + CallsFor(listing, existingByIP, req, i) <= faults.good
      {
        var called: bool;
        ok, called := PutRight(existingByIP, listing, req, i, FateOf(faults, calls));
        if !ok {
          CallsForGrows(listing, existingByIP, req, i + 1, |req.records|);
          done := if faults.replyLost then i + 1 else i;
          assert CutAt(listing, existingByIP, req, faults, deleted, i, done);
          break;
        }
        done := i + 1;
        calls := if called then calls + 1 else calls;
      }
    }

    /** Both loops. */
    method ApplyDiff(existingByIP: Index, listing: Zone, req: UpsertRequest, faults: Faults)
      returns (ok: bool, calls: nat, ghost deleted: set<string>, ghost done: nat)
      requires Valid() && zone == listing && IsIndex(listing, req.name, existingByIP)
      modifies this
      ensures Valid() && Loops(old(Current()), Current(), req, faults, ok, calls, existingByIP, deleted, done)
    {
      done := 0;
      ok, calls, deleted := DeleteUnwanted(existingByIP, req, faults);
      if ok {
        DeletionsRetain(listing, existingByIP, req, deleted);
        ok, calls, done := EditRequested(existingByIP, listing, req, faults, calls);
      }
    }

    /**
     * Any request has AnyEffect; one without repetitions puts right exactly the wrong addresses, or as many as
     * calls took effect.
     */
    method UpsertRecord(req: UpsertRequest, faults: Faults)
      returns (outcome: Outcome, calls: nat, ghost index: Index, ghost deleted: set<string>, ghost done: nat,
               ghost fixed: set<string>, ghost created: Created)
      requires Valid()
      modifies this
      ensures Valid()
      ensures AnyEffect(old(Current()), Current(), req, faults, outcome, calls, index, deleted, done)
      ensures (forall i, j | 0 <= i < j < |req.records| :: req.records[i] != req.records[j]) ==>
        UpsertEffect(old(zone), zone, req, faults, outcome, calls, index, fixed, created)
    {
      calls, index, deleted, done, fixed, created := 0, map[], {}, 0, {}, map[];
      outcome := ValidateUpsertRequest(req);
      if outcome.Err? {
        return;
      }
      if faults.listFails {
        outcome := Err(CallFailed);
        return;
      }
      var existingByIP := IndexByIP(req.name);
      index := existingByIP;
      var ok: bool;
      ok, calls, deleted, done := ApplyDiff(existingByIP, zone, req, faults);
      outcome := if ok then Ok else Err(CallFailed);
      if Distinct(req.records) {
        fixed, created := LoopsEdit(old(Current()), Current(), req, faults, ok, calls, index, deleted, done);
      }
    }

    /**
     * Deletes the given records in any order, until a call is not acknowledged; a record already gone is passed
     * over.
     */
    method DeleteAll(listed: set<nat>, faults: Faults) returns (ok: bool, ghost removed: set<nat>)
      requires Valid()
      modifies this`zone
      ensures Valid() && zone == old(zone) - removed && removed <= listed
      ensures ok <==> |listed| <= faults.good
      ensures if ok then removed == listed else |removed| == faults.good + if faults.replyLost then 1 else 0
    {
      var records, calls := listed, 0;
      ok, removed := true, {};
      while records != {}
        invariant Valid() && records <= listed && ok
        invariant removed == listed - records && calls == |removed| <= faults.good
        invariant zone == old(zone) - removed
        decreases records
      {
        var id :| id in records;
        records := records - {id};
        var answer := DeleteDNSRecord(id, FateOf(faults, calls));
        SubsetSize(removed + {id}, listed);
        if answer.CallError? {
          ok, removed := false, if faults.replyLost then removed + {id} else removed;
          break;
        }
        removed := removed + {id};
        calls := calls + 1;
      }
    }

    /** gone: the records that some other client deletes between this one's listing and its first deletion. */
    method DeleteRecord(name: string, faults: Faults, gone: set<nat>)
      returns (outcome: Outcome, ghost removed: set<nat>)
      requires Valid()
      modifies this`zone
      ensures Valid() && removed <= ListedIds(old(zone), name)
      ensures zone == if name == "" || faults.listFails then old(zone) else old(zone) - gone - removed
      ensures
        if name == "" then outcome == Err(NameRequired) && removed == {}
        else if faults.listFails then outcome == Err(CallFailed) && removed == {}
        else if |ListedIds(old(zone), name)| <= faults.good then outcome == Ok && removed == ListedIds(old(zone), name)
        else outcome == Err(CallFailed) && |removed| == faults.good + if faults.replyLost then 1 else 0
    {
      removed := {};
      if name == "" {
        return Err(NameRequired), removed;
      }
      if faults.listFails {
        return Err(CallFailed), removed;
      }
      var listed := ListedIds(zone, name);
      zone := zone - gone;
      var ok: bool;
      ok, removed := DeleteAll(listed, faults);
      outcome := if ok then Ok else Err(CallFailed);
    }
  }

  function ListedIds(zone: Zone, name: string): set<nat> { set id | id in zone && Listed(zone, name, id) }

  // ---------- What an edit publishes ----------

  /** Which addresses an edit leaves published, duplicates in the zone or not. */
  lemma PublishedAfter(
    before: Zone, after: Zone, index: Index, goal: Goal, fixed: set<string>, created: Created, ip: string)
    requires IsIndex(before, goal.name, index) && Edited(before, after, index, goal, fixed, created)
    ensures ip in Published(after, goal.name) <==>
      if ip in goal.wanted then ip in fixed || ip in Published(before, goal.name)
      else ip in Published(before, goal.name) && (ip !in fixed || Duplicated(before, goal.name, ip))
  {
    if ip in Published(after, goal.name) {
      var id :| id in after && Listed(after, goal.name, id) && after[id].content == ip;
      if id in before {
        assert Listed(before, goal.name, id) && before[id].content == ip;
        if ip !in goal.wanted && ip in fixed {
          assert index[ip] != id && Listed(before, goal.name, index[ip]);
        }
      } else {
        assert ip in created.Values;
      }
    }
    if ip in goal.wanted && ip in fixed && ip !in index {
      assert ip in created.Values;
      var id :| id in created && created[id] == ip;
      assert Listed(after, goal.name, id);
    } else if ip in goal.wanted && ip in index {
      assert Listed(after, goal.name, index[ip]) && after[index[ip]].content == ip;
    } else if ip !in goal.wanted && ip in index && ip !in fixed {
      assert Listed(after, goal.name, index[ip]) && after[index[ip]].content == ip;
    } else if Duplicated(before, goal.name, ip) {
      var i, j :| i in before && j in before && i != j && Listed(before, goal.name, i) && Listed(before, goal.name, j)
        && before[i].content == before[j].content == ip;
      var id := if index[ip] == i then j else i;
      assert Listed(after, goal.name, id) && after[id].content == ip;
    }
  }

  /**
   * At every cut-off, whatever was published and is wanted stays published, and nothing is published
   * that was neither published nor wanted.
   */
  lemma PublishedBetween(before: Zone, after: Zone, index: Index, goal: Goal, fixed: set<string>, created: Created)
    requires IsIndex(before, goal.name, index) && Edited(before, after, index, goal, fixed, created)
    requires fixed <= Wrong(before, index, goal)
    ensures Published(before, goal.name) * goal.wanted <= Published(after, goal.name)
    ensures Published(after, goal.name) <= Published(before, goal.name) + goal.wanted
  {
    forall ip
      ensures ip in Published(before, goal.name) * goal.wanted ==> ip in Published(after, goal.name)
      ensures ip in Published(after, goal.name) ==> ip in Published(before, goal.name) + goal.wanted
    {
      PublishedAfter(before, after, index, goal, fixed, created, ip);
    }
  }

  /** A successful upsert publishes exactly what was requested iff no unwanted address was published twice. */
  lemma SuccessPublishesExactly(before: Zone, after: Zone, index: Index, goal: Goal, created: Created)
    requires IsIndex(before, goal.name, index)
    requires Edited(before, after, index, goal, Wrong(before, index, goal), created)
    ensures Published(after, goal.name) == goal.wanted
       <==> forall ip | ip in Published(before, goal.name) && ip !in goal.wanted :: !Duplicated(before, goal.name, ip)
  {
    var wrong := Wrong(before, index, goal);
    forall ip
      ensures ip in Published(after, goal.name) <==>
        ip in goal.wanted || (ip in Published(before, goal.name) && Duplicated(before, goal.name, ip))
    {
      PublishedAfter(before, after, index, goal, wrong, created, ip);
      assert ip in Published(before, goal.name) <==> ip in index;
    }
  }

  /** Records of other names and other types are neither touched nor added, and retained addresses keep their IDs. */
  lemma EditTouchesNothingElse(
    before: Zone, after: Zone, index: Index, goal: Goal, fixed: set<string>, created: Created, id: nat)
    requires IsIndex(before, goal.name, index) && Edited(before, after, index, goal, fixed, created)
    ensures !Listed(before, goal.name, id) && id in before ==> id in after && after[id] == before[id]
    ensures !Listed(after, goal.name, id) && id in after ==> id in before && after[id] == before[id]
    ensures forall ip | ip in index && ip in goal.wanted ::
      index[ip] in after && after[index[ip]].(ttl := 0) == before[index[ip]].(ttl := 0)
  {
  }

  // ---------- Progress ----------

  /**
   * A successful upsert leaves every record of the name with the requested TTL iff all that the listing hides,
   * the further records of an address published more than once, had it before.
   */
  lemma {:induction false} SuccessTtlsExactly(before: Zone, after: Zone, index: Index, goal: Goal, created: Created)
    requires IsIndex(before, goal.name, index)
    requires Edited(before, after, index, goal, Wrong(before, index, goal), created)
    ensures (forall id | id in after && Listed(after, goal.name, id) :: after[id].ttl == goal.ttl)
       <==> (forall id | id in before && Hidden(before, goal.name, index, id) :: before[id].ttl == goal.ttl)
  {
    forall id | id in before && Hidden(before, goal.name, index, id)
      ensures Listed(after, goal.name, id) && after[id] == before[id]
    {
    }
    forall id | id in after && Listed(after, goal.name, id)
      ensures after[id].ttl == goal.ttl ||
        (id in before && Hidden(before, goal.name, index, id) && after[id] == before[id])
    {
      if id in before {
        IndexedIsRight(before, after, index, goal, created, id);
      }
    }
  }

  /** A listed record that the index passes over. */
  predicate Hidden(zone: Zone, name: string, index: Index, id: nat)
    requires IsIndex(zone, name, index)
  {
    Listed(zone, name, id) && index[zone[id].content] != id
  }

  lemma {:induction false} IndexedIsRight(
    before: Zone, after: Zone, index: Index, goal: Goal, created: Created, id: nat)
    requires IsIndex(before, goal.name, index)
    requires Edited(before, after, index, goal, Wrong(before, index, goal), created)
    requires id in before && Listed(after, goal.name, id)
    ensures after[id].ttl == goal.ttl || (Hidden(before, goal.name, index, id) && after[id] == before[id])
  {
    var ip := before[id].content;
    if index[ip] == id && ip in goal.wanted {
      assert ip !in Wrong(before, index, goal) ==> before[id].ttl == goal.ttl;
    }
  }

  /** Some index of the listed records; the only one when no address is published twice. */
  ghost function IndexOf(zone: Zone, name: string): (index: Index)
    ensures IsIndex(zone, name, index)
  {
    map ip | ip in Published(zone, name) :: var id :| id in zone && Listed(zone, name, id) && zone[id].content == ip; id
  }

  lemma IndexUnique(zone: Zone, name: string, i: Index, j: Index)
    requires DuplicateFree(zone, name) && IsIndex(zone, name, i) && IsIndex(zone, name, j)
    ensures i == j
  {
    assert i.Keys == j.Keys by {
      assert forall ip | ip in i :: zone[i[ip]].content in j;
      assert forall ip | ip in j :: zone[j[ip]].content in i;
    }
  }

  /** The number of addresses that are unwanted, missing or published with another TTL. */
  ghost function Distance(zone: Zone, goal: Goal): nat { |Wrong(zone, IndexOf(zone, goal.name), goal)| }

  lemma {:induction false} DistanceCounts(zone: Zone, goal: Goal)
    ensures
      var published := Published(zone, goal.name);
      Distance(zone, goal) == |published - goal.wanted| + |goal.wanted - published|
                            + |WrongTtl(zone, IndexOf(zone, goal.name), goal)|
  {
    var published, index := Published(zone, goal.name), IndexOf(zone, goal.name);
    assert index.Keys == published;
    var unwanted, missing, stale := published - goal.wanted, goal.wanted - published, WrongTtl(zone, index, goal);
    assert Wrong(zone, index, goal) == unwanted + missing + stale;
    assert unwanted !! missing && (unwanted + missing) !! stale;
  }

  lemma EditKeepsDuplicateFree(
    before: Zone, after: Zone, index: Index, goal: Goal, fixed: set<string>, created: Created)
    requires DuplicateFree(before, goal.name) && IsIndex(before, goal.name, index)
    requires Edited(before, after, index, goal, fixed, created)
    ensures DuplicateFree(after, goal.name)
  {
    forall i, j | i in after && j in after && i != j && Listed(after, goal.name, i) && Listed(after, goal.name, j)
      ensures after[i].content != after[j].content
    {
      if i !in before && j in before {
        assert created[i] in created.Values;
      } else if i in before && j !in before {
        assert created[j] in created.Values;
      }
    }
  }

  /** What is left wrong after an edit is what was wrong before and not fixed by it. */
  lemma WrongAfter(
    before: Zone, after: Zone, index: Index, goal: Goal, fixed: set<string>, created: Created, later: Index)
    requires DuplicateFree(before, goal.name) && IsIndex(before, goal.name, index)
    requires Edited(before, after, index, goal, fixed, created) && fixed <= Wrong(before, index, goal)
    requires IsIndex(after, goal.name, later)
    ensures Wrong(after, later, goal) == Wrong(before, index, goal) - fixed
  {
    EditKeepsDuplicateFree(before, after, index, goal, fixed, created);
    forall ip
      ensures ip in Wrong(after, later, goal) <==> ip in Wrong(before, index, goal) - fixed
    {
      PublishedAfter(before, after, index, goal, fixed, created, ip);
      assert ip in later <==> ip in Published(after, goal.name);
      assert ip in index <==> ip in Published(before, goal.name);
      NotDuplicated(before, goal.name, ip);
      if ip in goal.wanted && ip in later {
        TtlAfter(before, after, index, goal, fixed, created, later[ip]);
      }
    }
  }

  lemma NotDuplicated(zone: Zone, name: string, ip: string)
    requires DuplicateFree(zone, name)
    ensures !Duplicated(zone, name, ip)
  {
  }

  lemma TtlAfter(before: Zone, after: Zone, index: Index, goal: Goal, fixed: set<string>, created: Created, id: nat)
    requires DuplicateFree(before, goal.name) && IsIndex(before, goal.name, index)
    requires Edited(before, after, index, goal, fixed, created)
    requires Listed(after, goal.name, id) && after[id].content in goal.wanted
    ensures
      var ip := after[id].content;
      after[id].ttl == if ip in fixed || ip !in index then goal.ttl else before[index[ip]].ttl
  {
    if id in before {
      assert index[before[id].content] == id;
    } else {
      assert created[id] in created.Values;
    }
  }
}
