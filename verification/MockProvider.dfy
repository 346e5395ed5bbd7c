/** The in-memory provider: the reference for what an upsert means (internal/dns/mock.go). */
module MockProvider {
  import opened Provider

  datatype MockRecord = MockRecord(ttl: int, ips: seq<string>)

  type Records = map<string, MockRecord>

  function ViewOf(records: Records, name: string): View
  {
    if name in records then map ip | ip in records[name].ips :: records[name].ttl else map[]
  }

  class MockProvider {
    /** By name: the zone is always the provider's own. */
    var records: Records

    constructor ()
      ensures records == map[]
    {
      records := map[];
    }

    method UpsertRecord(req: UpsertRequest) returns (outcome: Outcome)
      modifies this
      ensures outcome == ValidateFields(req)
      ensures outcome.Err? ==> records == old(records)
      ensures outcome.Ok? ==> records == old(records)[req.name := MockRecord(req.ttl, req.records)]
    {
      if req.name == "" {
        return Err(NameRequired);
      }
      if req.ttl <= 0 {
        return Err(TtlNotPositive);
      }
      for i := 0 to |req.records|
        invariant "" !in req.records[..i]
      {
        if req.records[i] == "" {
          return Err(EmptyRecord);
        }
      }
      if req.name in records {
        var existing := records[req.name].(ips := req.records);
        records := records[req.name := existing.(ttl := req.ttl)];
      } else {
        records := records[req.name := MockRecord(req.ttl, req.records)];
      }
      return Ok;
    }

    method DeleteRecord(name: string) returns (outcome: Outcome)
      modifies this
      ensures outcome == if name == "" then Err(NameRequired)
        else if name !in old(records) then Err(RecordNotFound) else Ok
      ensures records == if outcome.Ok? then old(records) - {name} else old(records)
    {
      if name == "" {
        return Err(NameRequired);
      }
      if name !in records {
        return Err(RecordNotFound);
      }
      records := records - {name};
      return Ok;
    }
  }
}
