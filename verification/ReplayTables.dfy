/** The three tables behind replay protection and one `reserve` transaction run alone. */
module ReplayTables {
  import opened Foundations

  datatype Reservation = Reservation(
    serviceId: Uuid, instanceId: Uuid, keyId: Uuid, requestId: Uuid,
    nonceDigest: Bytes, fingerprint: Bytes,
    signatureCreated: i64, signatureExpires: i64, reservedAt: i64)

  datatype Outcome = Fresh | SafeRetry | ReplayRejected | ConflictRejected

  type NonceKey = (Uuid, Bytes)
  type RequestKey = (Uuid, Uuid)
  datatype RequestIdRow = RequestIdRow(fingerprint: Bytes, firstSeenAt: i64)
  datatype AuditRow = AuditRow(
    serviceId: Uuid, instanceId: Uuid, keyId: Uuid, requestId: Uuid,
    nonceDigest: Bytes, fingerprint: Bytes, outcome: Outcome, recordedAt: i64)

  datatype Tables = Tables(
    nonces: map<NonceKey, Reservation>,
    requestIds: map<RequestKey, RequestIdRow>,
    audit: seq<AuditRow>)

  const EMPTY := Tables(map[], map[], [])

  function NonceOf(r: Reservation): NonceKey { (r.keyId, r.nonceDigest) }

  function RequestOf(r: Reservation): RequestKey { (r.serviceId, r.requestId) }

  function IdRow(r: Reservation): RequestIdRow { RequestIdRow(r.fingerprint, r.reservedAt) }

  function Audit(r: Reservation, outcome: Outcome): AuditRow {
    AuditRow(r.serviceId, r.instanceId, r.keyId, r.requestId,
             r.nonceDigest, r.fingerprint, outcome, r.reservedAt)
  }

  /** What the answer must be, given only the rows already committed. */
  function Verdict(t: Tables, r: Reservation): Outcome {
    if NonceOf(r) in t.nonces then ReplayRejected
    else if RequestOf(r) !in t.requestIds then Fresh
    else if t.requestIds[RequestOf(r)].fingerprint == r.fingerprint then SafeRetry
    else ConflictRejected
  }

  /** The rows a call with outcome `o` leaves behind when it commits. */
  function Committing(t: Tables, r: Reservation, o: Outcome): Tables {
    Tables(
      if o.ReplayRejected? then t.nonces else t.nonces[NonceOf(r) := r],
      if o.Fresh? then t.requestIds[RequestOf(r) := IdRow(r)] else t.requestIds,
      t.audit + [Audit(r, o)])
  }

  function ReserveAlone(t: Tables, r: Reservation): Tables {
    Committing(t, r, Verdict(t, r))
  }

  function ReserveAll(t: Tables, rs: seq<Reservation>): Tables {
    if rs == [] then t
    else var before := ReserveAll(t, rs[..|rs| - 1]); ReserveAlone(before, rs[|rs| - 1])
  }

  /** The outcome of the k-th of `rs`, run one after another from `t`. */
  function OutcomeAt(t: Tables, rs: seq<Reservation>, k: nat): Outcome
    requires k < |rs|
  {
    Verdict(ReserveAll(t, rs[..k]), rs[k])
  }

  datatype ReplayDisposition = FreshRequest | RetriedRequest
  datatype ReplayProtectionError = InvalidTimestamp | ReplayDetected | RequestIdConflict

  function ToResult(o: Outcome): Result<ReplayDisposition, ReplayProtectionError> {
    match o
    case Fresh => Ok(FreshRequest)
    case SafeRetry => Ok(RetriedRequest)
    case ReplayRejected => Err(ReplayDetected)
    case ConflictRejected => Err(RequestIdConflict)
  }

  /** The repository, statement by statement, with no other transaction open. */
  class ReplayProtectionRepository {
    var nonces: map<NonceKey, Reservation>
    var requestIds: map<RequestKey, RequestIdRow>
    var audit: seq<AuditRow>

    constructor ()
      ensures Contents() == EMPTY
    {
      nonces, requestIds, audit := map[], map[], [];
    }

    function Contents(): Tables
      reads this
    {
      Tables(nonces, requestIds, audit)
    }

    method AppendAudit(r: Reservation, o: Outcome)
      modifies this`audit
      ensures audit == old(audit) + [Audit(r, o)]
    {
      audit := audit + [Audit(r, o)];
    }

    method Reserve(r: Reservation) returns (result: Result<ReplayDisposition, ReplayProtectionError>)
      modifies this
      ensures Contents() == ReserveAlone(old(Contents()), r)
      ensures result == ToResult(Verdict(old(Contents()), r))
    {
      var nonceRows := if NonceOf(r) in nonces then 0 else 1;
      if nonceRows == 0 {
        AppendAudit(r, ReplayRejected);
        return Err(ReplayDetected);
      }
      nonces := nonces[NonceOf(r) := r];

      var requestRows := if RequestOf(r) in requestIds then 0 else 1;
      if requestRows == 1 {
        requestIds := requestIds[RequestOf(r) := IdRow(r)];
      }
      var stored := requestIds[RequestOf(r)].fingerprint;
      if stored != r.fingerprint {
        AppendAudit(r, ConflictRejected);
        return Err(RequestIdConflict);
      }

      var disposition := if requestRows == 1 then FreshRequest else RetriedRequest;
      AppendAudit(r, if requestRows == 1 then Fresh else SafeRetry);
      return Ok(disposition);
    }
  }
}
