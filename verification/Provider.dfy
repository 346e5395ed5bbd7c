/** What all DNS providers share (internal/dns/provider.go). */
module Provider {
  datatype UpsertRequest = UpsertRequest(name: string, ttl: int, records: seq<string>)

  datatype ProviderError = NameRequired | TtlNotPositive | NoRecords | EmptyRecord | RecordNotFound | CallFailed

  datatype Outcome = Ok | Err(error: ProviderError)

  /** The checks both providers make, in their order. */
  function ValidateFields(req: UpsertRequest): Outcome
  {
    if req.name == "" then Err(NameRequired)
    else if req.ttl <= 0 then Err(TtlNotPositive)
    else if "" in req.records then Err(EmptyRecord)
    else Ok
  }

  function ValidateUpsertRequest(req: UpsertRequest): Outcome
  {
    if req.name == "" then Err(NameRequired)
    else if req.ttl <= 0 then Err(TtlNotPositive)
    else if req.records == [] then Err(NoRecords)
    else if "" in req.records then Err(EmptyRecord)
    else Ok
  }

  /** A request is valid iff it has a name, a positive TTL and addresses, none empty; the first defect is named. */
  lemma ValidExactly(req: UpsertRequest)
    ensures ValidateUpsertRequest(req) == Ok <==>
      req.name != "" && req.ttl > 0 && |req.records| > 0 && forall i | 0 <= i < |req.records| :: |req.records[i]| > 0
    ensures ValidateUpsertRequest(req) == Err(NameRequired) <==> req.name == ""
    ensures ValidateUpsertRequest(req) == Err(TtlNotPositive) <==> req.name != "" && req.ttl <= 0
    ensures ValidateUpsertRequest(req) == Err(NoRecords) <==> req.name != "" && req.ttl > 0 && req.records == []
    ensures req.records != [] ==> ValidateFields(req) == ValidateUpsertRequest(req)
    ensures req.records == [] && req.name != "" && req.ttl > 0 ==> ValidateFields(req) == Ok
  {
    assert "" in req.records <==> exists i | 0 <= i < |req.records| :: |req.records[i]| == 0;
  }

  predicate Distinct(s: seq<string>)
  {
    forall i, j | 0 <= i < j < |s| :: s[i] != s[j]
  }

  /** The published addresses of one name, each with its TTL. */
  type View = map<string, int>

  function RequestedView(req: UpsertRequest): View { map ip | ip in req.records :: req.ttl }
}
