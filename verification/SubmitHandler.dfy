/** The submission handler: accept the request, then route it, and never let routing change the answer. */
module SubmitHandler {
  import opened Foundations
  import opened ServiceRequests
  import opened Submission
  import ActionNames
  import Requests
  import Routes

  datatype World = World(store: Requests.Store, routes: Routes.Table)

  /** What the moment of a call brings: the policy's decision, a missing reference, and the routing attempt. */
  datatype Moment = Moment(
    policy: Policy, missing: Option<Requests.Reference>, acceptedAt: int,
    subscriptions: seq<Routes.Subscription>, attempt: Routes.Attempt)

  function Routed(record: Requests.AcceptedRequest): Routes.Request {
    Routes.Request(record.request.source, record.request.id, record.request.content.action)
  }

  function Handle(d: Reader, whitespace: char -> bool, w: World, r: SignedServiceRequest, m: Moment): (World, Answer) {
    var (store, answer) := Submit(d, w.store, r, m.policy, m.missing, m.acceptedAt);
    if answer.Stored? then
      (World(store, Routes.MaterializeRoutes(w.routes, m.subscriptions, Routed(answer.acceptance.record), m.attempt, whitespace).0),
       answer)
    else (World(store, w.routes), answer)
  }

  // ---- The handler, effect by effect ----

  method SubmitRequest(requests: Requests.RequestRepository, routes: Routes.RouteRepository,
                       d: Reader, whitespace: char -> bool, r: SignedServiceRequest, m: Moment)
    returns (answer: Answer)
    modifies requests, routes
    ensures (World(requests.Contents(), routes.routes), answer) ==
            Handle(d, whitespace, World(old(requests.Contents()), old(routes.routes)), r, m)
  {
    hide Routes.MaterializeRoutes;
    if !d.isJson(r.parts.contentType) { return UnsupportedMediaType; }
    var content := d.decode(r.parts.body);
    if content.None? { return InvalidRequest; }
    var request := Requests.Request(r.parts.requestId, r.serviceId, content.value);
    if m.policy.Denied? { return NotAuthorized; }
    if m.policy.Unavailable? { return InternalError; }
    var accepted := requests.AcceptRequest(request, d.fingerprint(request), m.missing, m.acceptedAt);
    if accepted.Err? { return Rejected(accepted.error); }
    var ignored := Routes.RouteRequest(routes, m.subscriptions, Routed(accepted.value.record), m.attempt, whitespace);
    return Stored(accepted.value);
  }

  /** Nothing is stored and nothing routed unless the policy allowed the call. */
  lemma OnlyAllowedCallsAct(d: Reader, whitespace: char -> bool, w: World, r: SignedServiceRequest, m: Moment)
    ensures var (w', answer) := Handle(d, whitespace, w, r, m);
            (answer == NotAuthorized <==> Readable(d, r) && m.policy.Denied?) &&
            (answer == InternalError <==> Readable(d, r) && m.policy.Unavailable?) &&
            (w' != w ==> Readable(d, r) && m.policy.Allowed?) &&
            (w'.routes != w.routes ==> answer.Stored?)
  {
    hide Submit, Routes.MaterializeRoutes;
    PolicyDecides(d, w.store, r, m.policy, m.missing, m.acceptedAt);
  }

  // ---- A retry repairs routing ----

  /** The body reader only lets valid action names through. */
  ghost predicate ReadsValidNames(d: Reader) {
    forall body | d.decode(body).Some? :: ActionNames.IsValidActionName(d.decode(body).value.action)
  }

  /** The same service submits the same content under the same request ID. */
  ghost predicate SameSubmission(d: Reader, r: SignedServiceRequest, again: SignedServiceRequest) {
    again.serviceId == r.serviceId && again.parts.requestId == r.parts.requestId &&
    d.isJson(again.parts.contentType) && d.decode(again.parts.body) == d.decode(r.parts.body)
  }

  lemma StoredRecordIsTheRequest(d: Reader, s: Requests.Store, r: SignedServiceRequest, m: Moment)
    requires Submit(d, s, r, m.policy, m.missing, m.acceptedAt).1.Stored?
    ensures d.decode(r.parts.body).Some?
    ensures var (after, answer) := Submit(d, s, r, m.policy, m.missing, m.acceptedAt);
            var request := Requests.Request(r.parts.requestId, r.serviceId, d.decode(r.parts.body).value);
            var record := answer.acceptance.record;
            record.request == request && record.fingerprint == d.fingerprint(request) &&
            IdKey(r) in after.accepted && after.accepted[IdKey(r)] == record
  {
    var request := Requests.Request(r.parts.requestId, r.serviceId, d.decode(r.parts.body).value);
    Requests.RecordsArePermanent(s, request, d.fingerprint(request), m.missing, m.acceptedAt);
  }

  /**
   However routing went the first time, an allowed retry answers with the stored record, keeps every route there was,
   and leaves one route for each subscription active at the retry when its statements succeed; these are routes of its
   own source and to the right destinations exactly when the table held no others before the first try.
   */
  lemma RetryRepairsRouting(d: Reader, whitespace: char -> bool, w: World, r: SignedServiceRequest, first: Moment,
                            again: SignedServiceRequest, retry: Moment)
    requires ReadsValidNames(d) && ActionNames.OutsideNames(whitespace)
    requires Handle(d, whitespace, w, r, first).1.Stored?
    requires SameSubmission(d, r, again) && retry.policy.Allowed? && Routes.Faultless(retry.attempt)
    ensures var (mid, answer) := Handle(d, whitespace, w, r, first);
            var (after, answerAgain) := Handle(d, whitespace, mid, again, retry);
            var q := Routed(answer.acceptance.record);
            answerAgain == Stored(Requests.SafeRetry(answer.acceptance.record)) &&
            Routes.Extends(w.routes, mid.routes) && Routes.Extends(mid.routes, after.routes) &&
            exists routes ::
              Routes.Repaired(w.routes, q, first.subscriptions, retry.subscriptions, after.routes, routes)
  {
    hide Routes.MaterializeRoutes;
    StoredRecordIsTheRequest(d, w.store, r, first);
    var (mid, answer) := Handle(d, whitespace, w, r, first);
    var q := Routed(answer.acceptance.record);
    Routes.RetryCompletes(w.routes, q, first.subscriptions, first.attempt, retry.subscriptions, retry.attempt, whitespace);
    hide ActionNames.IsValidActionName, Routes.Repaired;
    assert Submit(d, mid.store, again, retry.policy, retry.missing, retry.acceptedAt).1 ==
           Stored(Requests.SafeRetry(answer.acceptance.record));
    var complete := Routes.MaterializeRoutes(mid.routes, retry.subscriptions, q, retry.attempt, whitespace).1;
    assert Routes.Repaired(w.routes, q, first.subscriptions, retry.subscriptions,
                           Handle(d, whitespace, mid, again, retry).0.routes, complete.value);
  }

  /** Every route a call adds is the caller's own, for an active subscription to the action of the record it is answered with. */
  lemma RoutesAreTheCallers(d: Reader, whitespace: char -> bool, w: World, r: SignedServiceRequest, m: Moment, key: Routes.Key)
    requires ReadsValidNames(d) && ActionNames.OutsideNames(whitespace)
    requires var w' := Handle(d, whitespace, w, r, m).0; key in w'.routes && key !in w.routes
    ensures d.decode(r.parts.body).Some?
    ensures exists s, n: nat | s in m.subscriptions ::
              s.eventType == d.decode(r.parts.body).value.action && s.disabledAt == None &&
              key == (r.parts.requestId, s.id) &&
              Handle(d, whitespace, w, r, m).0.routes[key] == Routes.Route(
                id := m.attempt.ids(n), source := r.serviceId, requestId := r.parts.requestId, subscriptionId := s.id,
                destination := s.serviceId, createdAt := m.attempt.now)
  {
    StoredRecordIsTheRequest(d, w.store, r, m);
    var q := Routed(Handle(d, whitespace, w, r, m).1.acceptance.record);
    Routes.ActionAlwaysRoutes(w.routes, m.subscriptions, q, m.attempt, whitespace);
    var matching := Routes.ActiveFor(m.subscriptions, q.action);
    Routes.AttemptAddsTheseRows(w.routes, q, matching, m.attempt, 0);
    hide Submit, Routes.MaterializeRoutes, Routes.MaterializeFrom, Routes.ActiveFor;
    var routes := Handle(d, whitespace, w, r, m).0.routes;
    var i: nat :| i < |matching| && key == (q.id, matching[i].id) &&
                  Routes.IsRowOf(q, matching[i], m.attempt, 0 + i, routes[key]);
    Routes.ActiveForExactly(m.subscriptions, q.action, matching[i]);
  }
}
