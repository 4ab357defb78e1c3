/**
 Both idempotency layers together: any number of signed submissions, gated and then accepted in any
 interleaving. A call reaches the request repository only after the gate has admitted it.
 */
module Submission {
  import opened Foundations
  import opened Instances
  import opened ServiceRequests
  import ReplayTables
  import Gate
  import Requests

  /** How the kernel reads a body: JSON decoding and field validation, and the semantic fingerprint. */
  datatype Reader = Reader(
    isJson: string -> bool,
    decode: Bytes -> Option<Requests.Content>,
    fingerprint: Requests.Request -> Bytes)

  datatype Policy = Allowed | Denied | Unavailable

  datatype Answer =
    | UnsupportedMediaType | InvalidRequest | NotAuthorized | InternalError
    | Stored(acceptance: Requests.RequestAcceptance)
    | Rejected(reason: Requests.RequestError)

  datatype Progress = Arrived | Refused(error: Gate.GateError) | Admitted | Answered(policy: Policy, answer: Answer)

  /** An answered call remembers what the policy said. */
  datatype Call = Call(signed: SignedServiceRequest, progress: Progress)
  datatype Kernel = Kernel(calls: seq<Call>, replay: ReplayTables.Tables, store: Requests.Store)

  function PathOf(pathAndQuery: string): string {
    if pathAndQuery == [] || pathAndQuery[0] == '?' then [] else [pathAndQuery[0]] + PathOf(pathAndQuery[1..])
  }

  predicate IsSubmission(parts: ServiceRequestParts) {
    parts.httpMethod == "POST" && PathOf(parts.pathAndQuery) == "/v1/requests"
  }

  lemma {:induction false} PathIs(s: string, path: string)
    requires '?' !in path
    ensures PathOf(s) == path <==> s == path || exists query :: s == path + "?" + query
  {
    if s != "" && s[0] != '?' {
      assert forall query :: |path| > 0 ==> (path + "?" + query)[1..] == path[1..] + "?" + query;
      if path != "" {
        PathIs(s[1..], path[1..]);
        if query :| s[1..] == path[1..] + "?" + query {
          assert s == [s[0]] + s[1..];
          assert s[0] == path[0] ==> s == path + "?" + query;
        }
        assert s == path ==> s[1..] == path[1..];
      }
    } else if s != "" {
      assert s == "" + "?" + s[1..];
    }
  }

  /** The handler serves a POST of this path, whatever its query. */
  lemma SubmissionsExactly(parts: ServiceRequestParts)
    ensures IsSubmission(parts) <==>
            parts.httpMethod == "POST" &&
            (parts.pathAndQuery == "/v1/requests" || exists query :: parts.pathAndQuery == "/v1/requests" + "?" + query)
  {
    PathIs(parts.pathAndQuery, "/v1/requests");
  }

  /** The handler's checks in order, then the repository. */
  function Submit(d: Reader, s: Requests.Store, r: SignedServiceRequest, policy: Policy,
                  missing: Option<Requests.Reference>, at: int): (Requests.Store, Answer)
  {
    if !d.isJson(r.parts.contentType) then (s, UnsupportedMediaType)
    else
      match d.decode(r.parts.body)
      case None => (s, InvalidRequest)
      case Some(content) =>
        var request := Requests.Request(r.parts.requestId, r.serviceId, content);
        match policy
        case Denied => (s, NotAuthorized)
        case Unavailable => (s, InternalError)
        case Allowed =>
          var (s', answer) := Requests.Accept(s, request, d.fingerprint(request), missing, at);
          (s', if answer.Ok? then Stored(answer.value) else Rejected(answer.error))
  }

  /** The body reads as a submission. */
  predicate Readable(d: Reader, r: SignedServiceRequest) { d.isJson(r.parts.contentType) && d.decode(r.parts.body).Some? }

  /** What each answer says about the call, and that nothing is stored unless the policy allowed it. */
  lemma PolicyDecides(d: Reader, s: Requests.Store, r: SignedServiceRequest, policy: Policy,
                      missing: Option<Requests.Reference>, at: int)
    ensures var (s', answer) := Submit(d, s, r, policy, missing, at);
            (answer == UnsupportedMediaType <==> !d.isJson(r.parts.contentType)) &&
            (answer == InvalidRequest <==> d.isJson(r.parts.contentType) && d.decode(r.parts.body).None?) &&
            (answer == NotAuthorized <==> Readable(d, r) && policy.Denied?) &&
            (answer == InternalError <==> Readable(d, r) && policy.Unavailable?) &&
            (answer.Stored? || answer.Rejected? <==> Readable(d, r) && policy.Allowed?) &&
            (s' != s ==> Readable(d, r) && policy.Allowed?) &&
            (answer.Stored? ==>
               var request := answer.acceptance.record.request;
               request.id == r.parts.requestId && request.source == r.serviceId &&
               Some(request.content) == d.decode(r.parts.body))
  {
    if Readable(d, r) {
      var request := Requests.Request(r.parts.requestId, r.serviceId, d.decode(r.parts.body).value);
      Requests.RecordsArePermanent(s, request, d.fingerprint(request), missing, at);
    }
  }

  ghost predicate GateStep(p: Primitives, k: Kernel, k': Kernel, i: nat,
                           find: (Uuid, i64) -> Option<PublicKey>, now: i64, admission: Gate.AdmissionAnswer)
  {
    i < |k.calls| && k.calls[i].progress.Arrived? &&
    var (t, answer) := Gate.Admit(p, find, k.replay, k.calls[i].signed, now, admission);
    k' == Kernel(k.calls[i := k.calls[i].(progress := if answer.Ok? then Admitted else Refused(answer.error))], t, k.store)
  }

  ghost predicate SubmitStep(d: Reader, k: Kernel, k': Kernel, i: nat,
                             policy: Policy, missing: Option<Requests.Reference>, at: int)
  {
    i < |k.calls| && k.calls[i].progress.Admitted? && IsSubmission(k.calls[i].signed.parts) &&
    var (s, answer) := Submit(d, k.store, k.calls[i].signed, policy, missing, at);
    k' == Kernel(k.calls[i := k.calls[i].(progress := Answered(policy, answer))], k.replay, s)
  }

  /** Keys, clocks, admission, policy and references may differ at every step. */
  ghost predicate Step(p: Primitives, d: Reader, k: Kernel, k': Kernel) {
    (exists i, find, now, admission :: GateStep(p, k, k', i, find, now, admission)) ||
    (exists i, policy, missing, at :: SubmitStep(d, k, k', i, policy, missing, at))
  }

  ghost predicate IsRun(p: Primitives, d: Reader, run: seq<Kernel>) {
    |run| > 0 &&
    run[0].replay == ReplayTables.EMPTY && run[0].store == Requests.Store(map[], []) &&
    (forall i | 0 <= i < |run[0].calls| ::
       run[0].calls[i].progress.Arrived? && ValidParts(run[0].calls[i].signed.parts)) &&
    forall j | 0 <= j < |run| - 1 :: Step(p, d, run[j], run[j + 1])
  }

  ghost predicate Distinguishable(p: Primitives, calls: seq<Call>) {
    forall i, j | 0 <= i < |calls| && 0 <= j < |calls| :: NoCollision(p, calls[i].signed, calls[j].signed)
  }

  // ---- The invariant ----

  function IdKey(r: SignedServiceRequest): Requests.Key { (r.serviceId, r.parts.requestId) }

  predicate PassedGate(c: Call) { c.progress.Admitted? || c.progress.Answered? }

  predicate HasRecord(c: Call) { c.progress.Answered? && c.progress.answer.Stored? }

  predicate IsConflict(c: Call) {
    c.progress.Answered? && c.progress.answer == Rejected(Requests.RequestIdConflict)
  }

  ghost predicate Bound(p: Primitives, t: ReplayTables.Tables, c: Call) {
    PassedGate(c) ==> Gate.BoundTo(p, t, c.signed)
  }

  /** `record` is what the body of `r` decodes to. */
  predicate Records(d: Reader, record: Requests.AcceptedRequest, r: SignedServiceRequest) {
    d.decode(r.parts.body).Some? &&
    var request := Requests.Request(r.parts.requestId, r.serviceId, d.decode(r.parts.body).value);
    record.request == request && record.fingerprint == d.fingerprint(request)
  }

  predicate IsAcceptanceFor(calls: seq<Call>, i: int, key: Requests.Key)
    requires 0 <= i < |calls|
  {
    HasRecord(calls[i]) && calls[i].progress.answer.acceptance.Accepted? && IdKey(calls[i].signed) == key
  }

  /** Some accepted call put the record there, and its body decodes to it. */
  ghost predicate Justified(d: Reader, k: Kernel, key: Requests.Key)
    requires key in k.store.accepted
  {
    exists i | 0 <= i < |k.calls| ::
      IsAcceptanceFor(k.calls, i, key) && Records(d, k.store.accepted[key], k.calls[i].signed)
  }

  ghost predicate AllBound(p: Primitives, k: Kernel) {
    forall i | 0 <= i < |k.calls| :: Bound(p, k.replay, k.calls[i])
  }

  predicate AllSound(k: Kernel) {
    forall i | 0 <= i < |k.calls| :: ValidParts(k.calls[i].signed.parts) && !IsConflict(k.calls[i])
  }

  predicate AnswersAreStored(k: Kernel) {
    forall i | 0 <= i < |k.calls| && HasRecord(k.calls[i]) ::
      IdKey(k.calls[i].signed) in k.store.accepted &&
      k.calls[i].progress.answer.acceptance.record == k.store.accepted[IdKey(k.calls[i].signed)]
  }

  ghost predicate AcceptedOnce(calls: seq<Call>) {
    forall key, i, j | 0 <= i < |calls| && 0 <= j < |calls| ::
      IsAcceptanceFor(calls, i, key) && IsAcceptanceFor(calls, j, key) ==> i == j
  }

  ghost predicate AllJustified(d: Reader, k: Kernel) {
    forall key | key in k.store.accepted :: Justified(d, k, key)
  }

  /** Whoever was answered from the store had the policy's permission. */
  predicate AnsweredByPermission(k: Kernel) {
    forall i | 0 <= i < |k.calls| && k.calls[i].progress.Answered? ::
      IsSubmission(k.calls[i].signed.parts) && (HasRecord(k.calls[i]) ==> k.calls[i].progress.policy.Allowed?)
  }

  ghost predicate Invariant(p: Primitives, d: Reader, k: Kernel) {
    AllBound(p, k) && AllSound(k) && AnswersAreStored(k) && AcceptedOnce(k.calls) && AllJustified(d, k) &&
    AnsweredByPermission(k)
  }

  lemma SubmissionsAgree(p: Primitives, d: Reader, k: Kernel, i: nat, j: nat)
    requires Laws(p) && Invariant(p, d, k) && Distinguishable(p, k.calls)
    requires i < |k.calls| && j < |k.calls| && PassedGate(k.calls[i]) && PassedGate(k.calls[j])
    requires IdKey(k.calls[i].signed) == IdKey(k.calls[j].signed)
    ensures k.calls[i].signed.parts == k.calls[j].signed.parts
  {
    var r, s := k.calls[i].signed, k.calls[j].signed;
    assert Bound(p, k.replay, k.calls[i]) && Bound(p, k.replay, k.calls[j]);
    var findR, nowR :| Verify(p, findR, r, nowR).Ok?;
    var findS, nowS :| Verify(p, findS, s, nowS).Ok?;
    assert NoCollision(p, r, s);
    FingerprintBindsBody(p, findR, r, nowR, findS, s, nowS);
  }

  /** Only call `i` moved on, and it still has the request it came with. */
  predicate OnlyCall(k: Kernel, k': Kernel, i: nat) {
    |k'.calls| == |k.calls| && i < |k.calls| && k'.calls[i].signed == k.calls[i].signed &&
    forall j | 0 <= j < |k.calls| && j != i :: k'.calls[j] == k.calls[j]
  }

  lemma GateEffect(p: Primitives, k: Kernel, k': Kernel, i: nat,
                   find: (Uuid, i64) -> Option<PublicKey>, now: i64, admission: Gate.AdmissionAnswer)
    requires GateStep(p, k, k', i, find, now, admission)
    ensures OnlyCall(k, k', i) && k'.store == k.store && Gate.BindingsKept(k.replay, k'.replay)
    ensures k.calls[i].progress.Arrived? && !k'.calls[i].progress.Answered? && Bound(p, k'.replay, k'.calls[i])
  {
    hide Gate.Admit;
    Gate.AdmitBinds(p, find, k.replay, k.calls[i].signed, now, admission);
  }

  lemma OthersStayJustified(d: Reader, k: Kernel, k': Kernel, i: nat, key: Requests.Key)
    requires OnlyCall(k, k', i) && !k.calls[i].progress.Answered?
    requires key in k.store.accepted && Justified(d, k, key)
    requires key in k'.store.accepted && k'.store.accepted[key] == k.store.accepted[key]
    ensures Justified(d, k', key)
  {
    hide Records;
    var j :| 0 <= j < |k.calls| && IsAcceptanceFor(k.calls, j, key) &&
             Records(d, k.store.accepted[key], k.calls[j].signed);
    assert k'.calls[j] == k.calls[j];
    assert IsAcceptanceFor(k'.calls, j, key);
  }

  lemma QuietStepKeepsInvariant(p: Primitives, d: Reader, k: Kernel, k': Kernel, i: nat)
    requires Invariant(p, d, k) && OnlyCall(k, k', i) && k'.store == k.store && Gate.BindingsKept(k.replay, k'.replay)
    requires !k.calls[i].progress.Answered? && Bound(p, k'.replay, k'.calls[i])
    requires !HasRecord(k'.calls[i]) && !IsConflict(k'.calls[i])
    requires k'.calls[i].progress.Answered? ==> IsSubmission(k'.calls[i].signed.parts)
    ensures Invariant(p, d, k')
  {
    hide Gate.BoundTo, ValidParts, Records, IsSubmission;
    forall j | 0 <= j < |k'.calls|
      ensures Bound(p, k'.replay, k'.calls[j])
    {
      if PassedGate(k'.calls[j]) && j != i {
        assert Bound(p, k.replay, k.calls[j]);
        Gate.StaysBound(p, k.replay, k'.replay, k.calls[j].signed);
      }
    }
    forall key | key in k'.store.accepted
      ensures Justified(d, k', key)
    {
      OthersStayJustified(d, k, k', i, key);
    }
    assert AcceptedOnce(k'.calls) by {
      forall key, a, b | 0 <= a < |k'.calls| && 0 <= b < |k'.calls| &&
                         IsAcceptanceFor(k'.calls, a, key) && IsAcceptanceFor(k'.calls, b, key)
        ensures a == b
      {
        assert IsAcceptanceFor(k.calls, a, key) && IsAcceptanceFor(k.calls, b, key);
      }
    }
  }

  /** The request repository, asked by an admitted call, never finds its request ID bound to other content. */
  lemma SubmitNeverConflicts(p: Primitives, d: Reader, k: Kernel, i: nat,
                             policy: Policy, missing: Option<Requests.Reference>, at: int)
    requires Laws(p) && Invariant(p, d, k) && Distinguishable(p, k.calls)
    requires i < |k.calls| && k.calls[i].progress.Admitted?
    ensures Submit(d, k.store, k.calls[i].signed, policy, missing, at).1 != Rejected(Requests.RequestIdConflict)
  {
    hide Gate.BoundTo, ValidParts, NoCollision;
    var r := k.calls[i].signed;
    if IdKey(r) in k.store.accepted {
      assert Justified(d, k, IdKey(r));
      var j :| 0 <= j < |k.calls| && IsAcceptanceFor(k.calls, j, IdKey(r)) &&
               Records(d, k.store.accepted[IdKey(r)], k.calls[j].signed);
      SubmissionsAgree(p, d, k, i, j);
    }
  }

  /** Call `i` was answered with the stored record, and put it there exactly when it was accepted. */
  predicate AnsweredFrom(d: Reader, k: Kernel, k': Kernel, i: nat) {
    OnlyCall(k, k', i) && k'.replay == k.replay && k.calls[i].progress.Admitted? && HasRecord(k'.calls[i]) &&
    k'.calls[i].progress.policy.Allowed? && IsSubmission(k'.calls[i].signed.parts) &&
    var key, acceptance := IdKey(k.calls[i].signed), k'.calls[i].progress.answer.acceptance;
    (acceptance.Accepted? <==> key !in k.store.accepted) &&
    k'.store.accepted == k.store.accepted[key := acceptance.record] &&
    (key in k.store.accepted ==> acceptance.record == k.store.accepted[key]) &&
    Records(d, acceptance.record, k.calls[i].signed)
  }

  lemma StaysAcceptedOnce(d: Reader, k: Kernel, k': Kernel, i: nat)
    requires AnsweredFrom(d, k, k', i) && AcceptedOnce(k.calls) && AnswersAreStored(k)
    ensures AcceptedOnce(k'.calls) && AnswersAreStored(k')
  {
    hide Records;
    forall q, a, b | 0 <= a < |k'.calls| && 0 <= b < |k'.calls| &&
                     IsAcceptanceFor(k'.calls, a, q) && IsAcceptanceFor(k'.calls, b, q)
      ensures a == b
    {
      if a != i { assert IsAcceptanceFor(k.calls, a, q); }
      if b != i { assert IsAcceptanceFor(k.calls, b, q); }
    }
  }

  lemma StoredStepKeepsCalls(p: Primitives, d: Reader, k: Kernel, k': Kernel, i: nat)
    requires AnsweredFrom(d, k, k', i) && AllBound(p, k) && AllSound(k) && AnsweredByPermission(k)
    ensures AllBound(p, k') && AllSound(k') && AnsweredByPermission(k')
  {
    hide Gate.BoundTo, ValidParts, Records, IsSubmission;
    forall j | 0 <= j < |k'.calls|
      ensures Bound(p, k'.replay, k'.calls[j])
    {
      assert Bound(p, k.replay, k.calls[j]);
    }
  }

  lemma StoredStepKeepsJustified(d: Reader, k: Kernel, k': Kernel, i: nat)
    requires AnsweredFrom(d, k, k', i) && AllJustified(d, k)
    ensures AllJustified(d, k')
  {
    hide Records, IsSubmission;
    forall q | q in k'.store.accepted
      ensures Justified(d, k', q)
    {
      if q in k.store.accepted {
        OthersStayJustified(d, k, k', i, q);
      } else {
        assert IsAcceptanceFor(k'.calls, i, q);
      }
    }
  }

  lemma StoredStepKeepsInvariant(p: Primitives, d: Reader, k: Kernel, k': Kernel, i: nat)
    requires Invariant(p, d, k) && AnsweredFrom(d, k, k', i)
    ensures Invariant(p, d, k')
  {
    StaysAcceptedOnce(d, k, k', i);
    StoredStepKeepsCalls(p, d, k, k', i);
    StoredStepKeepsJustified(d, k, k', i);
    hide AnsweredFrom, AllBound, AllSound, AnswersAreStored, AcceptedOnce, AllJustified, AnsweredByPermission;
  }

  lemma SubmitKeepsInvariant(p: Primitives, d: Reader, k: Kernel, k': Kernel, i: nat,
                             policy: Policy, missing: Option<Requests.Reference>, at: int)
    requires Laws(p) && Invariant(p, d, k) && Distinguishable(p, k.calls)
    requires SubmitStep(d, k, k', i, policy, missing, at)
    ensures Invariant(p, d, k') && OnlyCall(k, k', i)
  {
    hide Gate.BoundTo, ValidParts, NoCollision;
    SubmitNeverConflicts(p, d, k, i, policy, missing, at);
    assert Bound(p, k.replay, k.calls[i]);
    if HasRecord(k'.calls[i]) {
      StoredStepKeepsInvariant(p, d, k, k', i);
    } else {
      QuietStepKeepsInvariant(p, d, k, k', i);
    }
  }

  lemma StepKeepsInvariant(p: Primitives, d: Reader, k: Kernel, k': Kernel)
    requires Laws(p) && Invariant(p, d, k) && Distinguishable(p, k.calls) && Step(p, d, k, k')
    ensures Invariant(p, d, k') && exists i :: OnlyCall(k, k', i)
  {
    hide Invariant, GateStep, SubmitStep, Distinguishable;
    if i, find, now, admission :| GateStep(p, k, k', i, find, now, admission) {
      GateEffect(p, k, k', i, find, now, admission);
      QuietStepKeepsInvariant(p, d, k, k', i);
    } else {
      var i, policy, missing, at :| SubmitStep(d, k, k', i, policy, missing, at);
      SubmitKeepsInvariant(p, d, k, k', i, policy, missing, at);
    }
  }

  lemma StillDistinguishable(p: Primitives, k: Kernel, k': Kernel, i: nat)
    requires Distinguishable(p, k.calls) && OnlyCall(k, k', i)
    ensures Distinguishable(p, k'.calls)
  {
    forall a, b | 0 <= a < |k'.calls| && 0 <= b < |k'.calls|
      ensures NoCollision(p, k'.calls[a].signed, k'.calls[b].signed)
    {
      assert NoCollision(p, k.calls[a].signed, k.calls[b].signed);
    }
  }

  lemma RunFront(p: Primitives, d: Reader, run: seq<Kernel>)
    requires IsRun(p, d, run) && |run| > 1
    ensures IsRun(p, d, run[..|run| - 1]) && Step(p, d, run[|run| - 2], run[|run| - 1])
  {
    var n := |run| - 1;
    forall j | 0 <= j < n - 1
      ensures Step(p, d, run[..n][j], run[..n][j + 1])
    {
      assert Step(p, d, run[j], run[j + 1]);
    }
    var j := n - 1;
    assert Step(p, d, run[j], run[j + 1]);
  }

  lemma {:induction false} RunKeepsInvariant(p: Primitives, d: Reader, run: seq<Kernel>)
    requires Laws(p) && IsRun(p, d, run) && Distinguishable(p, run[0].calls)
    ensures Invariant(p, d, run[|run| - 1]) && Distinguishable(p, run[|run| - 1].calls)
  {
    var n := |run| - 1;
    if n > 0 {
      RunFront(p, d, run);
      RunKeepsInvariant(p, d, run[..n]);
      StepKeepsInvariant(p, d, run[n - 1], run[n]);
      var i :| OnlyCall(run[n - 1], run[n], i);
      StillDistinguishable(p, run[n - 1], run[n], i);
    }
  }

  /**
   Through the gate the repository never reports a request-ID conflict. Every call of one service and
   request ID that gets a record gets the same record, and exactly one of them is the acceptance.
   */
  lemma SubmissionsAreIdempotent(p: Primitives, d: Reader, run: seq<Kernel>)
    requires Laws(p) && IsRun(p, d, run) && Distinguishable(p, run[0].calls)
    ensures var calls := run[|run| - 1].calls;
            (forall i | 0 <= i < |calls| :: !IsConflict(calls[i])) &&
            (forall i, j | 0 <= i < |calls| && 0 <= j < |calls| && HasRecord(calls[i]) && HasRecord(calls[j]) &&
                           IdKey(calls[i].signed) == IdKey(calls[j].signed) ::
               calls[i].progress.answer.acceptance.record == calls[j].progress.answer.acceptance.record) &&
            (forall i | 0 <= i < |calls| && HasRecord(calls[i]) ::
               exists j | 0 <= j < |calls| :: IsAcceptanceFor(calls, j, IdKey(calls[i].signed))) &&
            (forall key, i, j | 0 <= i < |calls| && 0 <= j < |calls| &&
                                IsAcceptanceFor(calls, i, key) && IsAcceptanceFor(calls, j, key) :: i == j)
  {
    RunKeepsInvariant(p, d, run);
    var k := run[|run| - 1];
    forall i | 0 <= i < |k.calls| && HasRecord(k.calls[i])
      ensures exists j | 0 <= j < |k.calls| :: IsAcceptanceFor(k.calls, j, IdKey(k.calls[i].signed))
    {
      var key := IdKey(k.calls[i].signed);
      assert Justified(d, k, key);
      var j :| 0 <= j < |k.calls| && IsAcceptanceFor(k.calls, j, key) &&
               Records(d, k.store.accepted[key], k.calls[j].signed);
    }
  }

  /** Some call the policy allowed was accepted under this key, and the stored record is what its body asks for. */
  ghost predicate AllowedAcceptance(d: Reader, k: Kernel, key: Requests.Key)
    requires key in k.store.accepted
  {
    exists i | 0 <= i < |k.calls| ::
      IsAcceptanceFor(k.calls, i, key) && k.calls[i].progress.policy.Allowed? &&
      Records(d, k.store.accepted[key], k.calls[i].signed)
  }

  /** Over any run only submissions are answered, and whatever is stored was put there by one the policy allowed. */
  lemma StoredByPermission(p: Primitives, d: Reader, run: seq<Kernel>)
    requires Laws(p) && IsRun(p, d, run) && Distinguishable(p, run[0].calls)
    ensures var k := run[|run| - 1];
            (forall key | key in k.store.accepted :: AllowedAcceptance(d, k, key)) &&
            (forall i | 0 <= i < |k.calls| && k.calls[i].progress.Answered? ::
               IsSubmission(k.calls[i].signed.parts) && (HasRecord(k.calls[i]) ==> k.calls[i].progress.policy.Allowed?))
  {
    RunKeepsInvariant(p, d, run);
    var k := run[|run| - 1];
    forall key | key in k.store.accepted ensures AllowedAcceptance(d, k, key) {
      assert Justified(d, k, key);
      var i :| 0 <= i < |k.calls| && IsAcceptanceFor(k.calls, i, key) &&
               Records(d, k.store.accepted[key], k.calls[i].signed);
    }
  }
}
