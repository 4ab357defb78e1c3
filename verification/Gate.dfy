/** The ordered boundary: verify the signature, reserve the nonce and request ID, check admission. */
module Gate {
  import opened Foundations
  import opened Instances
  import opened ServiceRequests
  import opened ReplayTables

  datatype GateError =
    | SignatureRefused(reason: AuthenticationError)
    | ReplayRefused(refusal: ReplayProtectionError)
    | CommunicationDisabled

  datatype AdmittedServiceRequest = AdmittedServiceRequest(
    verified: VerifiedServiceRequest, disposition: ReplayDisposition, admissionRevision: int)

  /** The service's communication admission at the moment it is read: its revision, if enabled. */
  type AdmissionAnswer = Option<int>

  function FromVerified(v: VerifiedServiceRequest, reservedAt: i64): Result<Reservation, ReplayProtectionError> {
    if IsStale(v.created, v.expires, reservedAt) then Err(InvalidTimestamp)
    else Ok(Reservation(v.serviceId, v.instanceId, v.keyId, v.requestId, v.nonceDigest, v.requestFingerprint,
                        v.created, v.expires, reservedAt))
  }

  /** The gate's answer, and the replay tables it leaves. */
  function Admit(p: Primitives, find: (Uuid, i64) -> Option<PublicKey>, t: Tables,
                 r: SignedServiceRequest, now: i64, admission: AdmissionAnswer)
    : (Tables, Result<AdmittedServiceRequest, GateError>)
  {
    match Verify(p, find, r, now)
    case Err(e) => (t, Err(SignatureRefused(e)))
    case Ok(v) =>
      match FromVerified(v, now)
      case Err(e) => (t, Err(ReplayRefused(e)))
      case Ok(reservation) =>
        var t' := ReserveAlone(t, reservation);
        match ToResult(Verdict(t, reservation))
        case Err(e) => (t', Err(ReplayRefused(e)))
        case Ok(disposition) =>
          if admission.None? then (t', Err(CommunicationDisabled))
          else (t', Ok(AdmittedServiceRequest(v, disposition, admission.value)))
  }

  /** A signature that verifies at `now` can always be reserved at `now`, within the signed window. */
  lemma VerifiedIsReservable(p: Primitives, find: (Uuid, i64) -> Option<PublicKey>,
                             r: SignedServiceRequest, now: i64)
    requires Verify(p, find, r, now).Ok?
    ensures var v := Verify(p, find, r, now).value;
            FromVerified(v, now).Ok? && v.created - 5 <= now <= v.expires + 5 && v.expires <= v.created + 30
  {
    VerifiedMeans(p, find, r, now);
    var m := ParseSignatureInput(p, r.signatureInput).value;
    StaleOutsideWindow(m.created, m.expires, now);
  }

  predicate BindingsKept(t: Tables, t': Tables) {
    forall q | q in t.requestIds :: q in t'.requestIds && t'.requestIds[q] == t.requestIds[q]
  }

  /** An admitted request was verified, and its request ID is bound to its own fingerprint. */
  ghost predicate BoundTo(p: Primitives, t: Tables, r: SignedServiceRequest) {
    (exists find, now :: Verify(p, find, r, now).Ok?) &&
    (r.serviceId, r.parts.requestId) in t.requestIds &&
    t.requestIds[(r.serviceId, r.parts.requestId)].fingerprint == RequestFingerprint(p, r)
  }

  lemma StaysBound(p: Primitives, t: Tables, t': Tables, r: SignedServiceRequest)
    requires BoundTo(p, t, r) && BindingsKept(t, t')
    ensures BoundTo(p, t', r)
  {
  }

  lemma AdmitBinds(p: Primitives, find: (Uuid, i64) -> Option<PublicKey>, t: Tables,
                   r: SignedServiceRequest, now: i64, admission: AdmissionAnswer)
    ensures var (t', answer) := Admit(p, find, t, r, now, admission);
            BindingsKept(t, t') && (answer.Ok? ==> BoundTo(p, t', r))
  {
    hide Verify, RequestFingerprint, ParseSignatureInput, IsStale;
    if Verify(p, find, r, now).Ok? {
      VerifiedMeans(p, find, r, now);
    }
  }

  /**
   The gate refuses no request for its reservation time, admits only from five seconds before the signed
   creation to thirty-five after it, and writes nothing for a signature that does not verify.
   */
  lemma AdmitMeans(p: Primitives, find: (Uuid, i64) -> Option<PublicKey>, t: Tables,
                   r: SignedServiceRequest, now: i64, admission: AdmissionAnswer)
    ensures var (t', answer) := Admit(p, find, t, r, now, admission);
            answer != Err(ReplayRefused(InvalidTimestamp)) &&
            (t' == t <==> Verify(p, find, r, now).Err?) &&
            (answer.Ok? <==> Verify(p, find, r, now).Ok? && admission.Some? &&
                             ToResult(Verdict(t, FromVerified(Verify(p, find, r, now).value, now).value)).Ok?) &&
            (answer.Ok? ==>
               var v := answer.value.verified;
               v == Verify(p, find, r, now).value && v.created - 5 <= now <= v.created + 35 &&
               (v.serviceId, v.requestId) in t'.requestIds &&
               t'.requestIds[(v.serviceId, v.requestId)].fingerprint == v.requestFingerprint &&
               (v.keyId, v.nonceDigest) !in t.nonces && (v.keyId, v.nonceDigest) in t'.nonces)
  {
    if Verify(p, find, r, now).Ok? {
      VerifiedIsReservable(p, find, r, now);
      var reservation := FromVerified(Verify(p, find, r, now).value, now).value;
      assert |ReserveAlone(t, reservation).audit| == |t.audit| + 1;
    }
  }

  /** The reservation a verified request asks for, field by field. */
  function ReservationOf(v: VerifiedServiceRequest, now: i64): Reservation {
    Reservation(
      serviceId := v.serviceId, instanceId := v.instanceId, keyId := v.keyId, requestId := v.requestId,
      nonceDigest := v.nonceDigest, fingerprint := v.requestFingerprint,
      signatureCreated := v.created, signatureExpires := v.expires, reservedAt := now)
  }

  /** The answer in full: why a request is refused, which reservation it makes, and what an admitted one carries. */
  lemma AdmittedExactly(p: Primitives, find: (Uuid, i64) -> Option<PublicKey>, t: Tables,
                        r: SignedServiceRequest, now: i64, admission: AdmissionAnswer)
    ensures var (t', answer) := Admit(p, find, t, r, now, admission);
            match Verify(p, find, r, now)
            case Err(reason) => t' == t && answer == Err(SignatureRefused(reason))
            case Ok(v) =>
              var reserved := ToResult(Verdict(t, ReservationOf(v, now)));
              t' == ReserveAlone(t, ReservationOf(v, now)) &&
              (forall refusal :: answer == Err(ReplayRefused(refusal)) <==> reserved == Err(refusal)) &&
              (answer == Err(CommunicationDisabled) <==> reserved.Ok? && admission == None) &&
              (answer.Ok? <==> reserved.Ok? && admission.Some?) &&
              (answer.Ok? ==> answer.value.verified == v && reserved == Ok(answer.value.disposition) &&
                              admission == Some(answer.value.admissionRevision))
  {
    hide Verify, Verdict;
    if Verify(p, find, r, now).Ok? {
      VerifiedIsReservable(p, find, r, now);
    }
  }
}
