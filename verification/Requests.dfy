/** Accepting a request: insert it once, answer retries from the stored record, refuse a rebinding. */
module Requests {
  import opened Foundations

  /** What a submitted body asks for once it has been decoded and validated. */
  datatype Content = Content(action: string, scope: string, artifact: Uuid, permissionPolicy: Uuid)
  datatype Request = Request(id: Uuid, source: Uuid, content: Content)
  datatype AcceptedRequest = AcceptedRequest(request: Request, fingerprint: Bytes, acceptedAt: int)
  datatype Reference = SourceIdentity | SchemaVersion
  datatype RequestError = RequestIdConflict | UnknownSource | UnknownSchemaVersion
  datatype RequestAcceptance = Accepted(record: AcceptedRequest) | SafeRetry(record: AcceptedRequest)
  datatype AcceptanceOutcome = AcceptedOutcome | SafeRetryOutcome | ConflictOutcome
  datatype AcceptanceAudit = AcceptanceAudit(request: Request, fingerprint: Bytes, outcome: AcceptanceOutcome)

  type Key = (Uuid, Uuid)
  datatype Store = Store(accepted: map<Key, AcceptedRequest>, audit: seq<AcceptanceAudit>)

  function KeyOf(r: Request): Key { (r.source, r.id) }

  function Violation(r: Reference): RequestError {
    match r case SourceIdentity => UnknownSource case SchemaVersion => UnknownSchemaVersion
  }

  /** `missing` names the reference an insert would violate; a row that is not inserted violates none. */
  function Accept(s: Store, r: Request, fingerprint: Bytes, missing: Option<Reference>, at: int)
    : (Store, Result<RequestAcceptance, RequestError>)
  {
    if KeyOf(r) !in s.accepted then
      if missing.Some? then (s, Err(Violation(missing.value)))
      else
        var record := AcceptedRequest(r, fingerprint, at);
        (Store(s.accepted[KeyOf(r) := record], s.audit + [AcceptanceAudit(r, fingerprint, AcceptedOutcome)]),
         Ok(Accepted(record)))
    else
      var stored := s.accepted[KeyOf(r)];
      if stored.request != r || stored.fingerprint != fingerprint then
        (s.(audit := s.audit + [AcceptanceAudit(r, fingerprint, ConflictOutcome)]), Err(RequestIdConflict))
      else
        (s.(audit := s.audit + [AcceptanceAudit(r, fingerprint, SafeRetryOutcome)]), Ok(SafeRetry(stored)))
  }

  class RequestRepository {
    var accepted: map<Key, AcceptedRequest>
    var audit: seq<AcceptanceAudit>

    constructor ()
      ensures Contents() == Store(map[], [])
    {
      accepted, audit := map[], [];
    }

    function Contents(): Store
      reads this
    {
      Store(accepted, audit)
    }

    method AcceptRequest(r: Request, fingerprint: Bytes, missing: Option<Reference>, at: int)
      returns (answer: Result<RequestAcceptance, RequestError>)
      modifies this
      ensures (Contents(), answer) == Accept(old(Contents()), r, fingerprint, missing, at)
    {
      var inserted := KeyOf(r) !in accepted;
      if inserted && missing.Some? {
        return Err(Violation(missing.value));
      }
      if inserted {
        accepted := accepted[KeyOf(r) := AcceptedRequest(r, fingerprint, at)];
        audit := audit + [AcceptanceAudit(r, fingerprint, AcceptedOutcome)];
        return Ok(Accepted(accepted[KeyOf(r)]));
      }
      var stored := accepted[KeyOf(r)];
      if stored.request != r || stored.fingerprint != fingerprint {
        audit := audit + [AcceptanceAudit(r, fingerprint, ConflictOutcome)];
        return Err(RequestIdConflict);
      }
      audit := audit + [AcceptanceAudit(r, fingerprint, SafeRetryOutcome)];
      return Ok(SafeRetry(stored));
    }
  }

  /** Which answer a request gets, and the one audit row it leaves unless a reference was missing. */
  lemma AcceptedExactly(s: Store, r: Request, fingerprint: Bytes, missing: Option<Reference>, at: int)
    ensures var (s', answer) := Accept(s, r, fingerprint, missing, at);
            var known := (r.source, r.id) in s.accepted;
            (answer == Err(UnknownSource) <==> !known && missing == Some(SourceIdentity)) &&
            (answer == Err(UnknownSchemaVersion) <==> !known && missing == Some(SchemaVersion)) &&
            (answer == Ok(Accepted(AcceptedRequest(r, fingerprint, at))) <==> !known && missing.None?) &&
            (answer.Ok? && answer.value.SafeRetry? <==>
               known && s.accepted[(r.source, r.id)].request == r && s.accepted[(r.source, r.id)].fingerprint == fingerprint) &&
            (!known && missing.Some? ==> s' == s) &&
            (known || missing.None? ==>
               |s'.audit| == |s.audit| + 1 && s'.audit[..|s.audit|] == s.audit &&
               var row := s'.audit[|s.audit|];
               row.request == r && row.fingerprint == fingerprint &&
               (row.outcome.AcceptedOutcome? <==> answer.Ok? && answer.value.Accepted?) &&
               (row.outcome.SafeRetryOutcome? <==> answer.Ok? && answer.value.SafeRetry?) &&
               (row.outcome.ConflictOutcome? <==> answer == Err(RequestIdConflict)))
  {
  }

  /** Whatever is asked, a stored record is never altered, and an answer that is Ok is the stored record. */
  lemma RecordsArePermanent(s: Store, r: Request, fingerprint: Bytes, missing: Option<Reference>, at: int)
    ensures var (s', answer) := Accept(s, r, fingerprint, missing, at);
            (forall k | k in s.accepted :: k in s'.accepted && s'.accepted[k] == s.accepted[k]) &&
            (forall k | k in s'.accepted && k !in s.accepted :: k == KeyOf(r)) &&
            (answer.Ok? ==> KeyOf(r) in s'.accepted && answer.value.record == s'.accepted[KeyOf(r)] &&
                            answer.value.record.request == r && answer.value.record.fingerprint == fingerprint) &&
            (answer.Ok? ==> (answer.value.Accepted? <==> KeyOf(r) !in s.accepted)) &&
            (answer == Err(RequestIdConflict) <==>
               KeyOf(r) in s.accepted &&
               (s.accepted[KeyOf(r)].request != r || s.accepted[KeyOf(r)].fingerprint != fingerprint))
  {
  }
}
