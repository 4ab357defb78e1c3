/** Routes for an accepted request: one for each active inclusive subscription, however often it is tried. */
module Routes {
  import opened Foundations
  import opened ActionNames

  datatype Subscription = Subscription(
    id: Uuid, serviceId: Uuid, eventType: string, createdAt: i64, disabledAt: Option<i64>)
  datatype Route = Route(
    id: Uuid, source: Uuid, requestId: Uuid, subscriptionId: Uuid, destination: Uuid, createdAt: i64)
  datatype RequestError = InvalidAcceptedAt | UnknownSubscription | NotAnEventType | RepositoryFailure(detail: string)

  /** The unique key: it leaves the source out. */
  type Key = (Uuid, Uuid)
  type Table = map<Key, Route>

  function KeyOf(r: Route): Key { (r.requestId, r.subscriptionId) }

  /** Anything that can go wrong with one statement: before it takes effect, or on the way back after it has. */
  datatype Fault = NoFault | Before(error: RequestError) | After(error: RequestError)

  /** The row the table holds for this route's key once the insert has been tried. */
  function Stored(t: Table, r: Route): Route { if KeyOf(r) in t then t[KeyOf(r)] else r }

  function Materialize(t: Table, r: Route, fault: Fault): (Table, Result<Route, RequestError>) {
    if r.createdAt < 0 then (t, Err(InvalidAcceptedAt))
    else
      match fault
      case Before(error) => (t, Err(error))
      case After(error) => (t[KeyOf(r) := Stored(t, r)], Err(error))
      case NoFault => (t[KeyOf(r) := Stored(t, r)], Ok(Stored(t, r)))
  }

  class RouteRepository {
    var routes: map<Key, Route>

    constructor ()
      ensures routes == map[]
    {
      routes := map[];
    }

    method MaterializeRoute(r: Route, fault: Fault) returns (result: Result<Route, RequestError>)
      modifies this
      ensures (routes, result) == Materialize(old(routes), r, fault)
    {
      if r.createdAt < 0 { return Err(InvalidAcceptedAt); }
      if fault.Before? { return Err(fault.error); }
      var inserted := KeyOf(r) !in routes;
      if inserted { routes := routes[KeyOf(r) := r]; }
      assert routes == old(routes)[KeyOf(r) := Stored(old(routes), r)];
      if fault.After? { return Err(fault.error); }
      if inserted { return Ok(r); }
      return Ok(routes[KeyOf(r)]);
    }
  }

  // ---- Any interleaving of attempts ----

  datatype Step = Step(route: Route, fault: Fault)

  function Next(t: Table, s: Step): Table { Materialize(t, s.route, s.fault).0 }

  function Run(t: Table, steps: seq<Step>): Table {
    if steps == [] then t else Next(Run(t, steps[..|steps| - 1]), steps[|steps| - 1])
  }

  /** The answer to the k-th step. */
  function AnswerTo(t: Table, steps: seq<Step>, k: nat): Result<Route, RequestError>
    requires k < |steps|
  {
    Materialize(Run(t, steps[..k]), steps[k].route, steps[k].fault).1
  }

  ghost predicate Extends(t: Table, u: Table) { forall k | k in t :: k in u && u[k] == t[k] }

  lemma {:induction false} RunExtends(t: Table, steps: seq<Step>)
    ensures Extends(t, Run(t, steps))
  {
    if steps != [] { RunExtends(t, steps[..|steps| - 1]); }
  }

  lemma {:induction false} RunSplits(t: Table, a: seq<Step>, b: seq<Step>)
    ensures Run(t, a + b) == Run(Run(t, a), b)
    decreases |b|
  {
    if b == [] {
      assert a + b == a;
    } else {
      assert (a + b)[..|a + b| - 1] == a + b[..|b| - 1];
      RunSplits(t, a, b[..|b| - 1]);
    }
  }

  /** Every route ever answered stays in the table as it was answered, whoever else runs before or after. */
  lemma AnswersArePermanent(t: Table, steps: seq<Step>, k: nat)
    requires k < |steps| && AnswerTo(t, steps, k).Ok?
    ensures var r := AnswerTo(t, steps, k).value;
            KeyOf(steps[k].route) in Run(t, steps) && Run(t, steps)[KeyOf(steps[k].route)] == r
  {
    assert steps == steps[..k + 1] + steps[k + 1..];
    assert steps[..k + 1][..k] == steps[..k];
    RunSplits(t, steps[..k + 1], steps[k + 1..]);
    RunExtends(Run(t, steps[..k + 1]), steps[k + 1..]);
  }

  /** So two attempts at one request and subscription are never answered differently. */
  lemma OneRoutePerMatch(t: Table, steps: seq<Step>, j: nat, k: nat)
    requires j < |steps| && k < |steps| && KeyOf(steps[j].route) == KeyOf(steps[k].route)
    requires AnswerTo(t, steps, j).Ok? && AnswerTo(t, steps, k).Ok?
    ensures AnswerTo(t, steps, j) == AnswerTo(t, steps, k)
  {
    AnswersArePermanent(t, steps, j);
    AnswersArePermanent(t, steps, k);
  }

  // ---- Materializing a request's routes ----

  function ActiveFor(subscriptions: seq<Subscription>, eventType: string): seq<Subscription> {
    if subscriptions == [] then []
    else
      var n := |subscriptions| - 1;
      var last := subscriptions[n];
      ActiveFor(subscriptions[..n], eventType) + (if last.eventType == eventType && last.disabledAt.None? then [last] else [])
  }

  lemma {:induction false} ActiveForExactly(subscriptions: seq<Subscription>, eventType: string, s: Subscription)
    ensures s in ActiveFor(subscriptions, eventType) <==>
            s in subscriptions && s.eventType == eventType && s.disabledAt.None?
  {
    if subscriptions != [] { ActiveForExactly(subscriptions[..|subscriptions| - 1], eventType, s); }
  }

  datatype Request = Request(source: Uuid, id: Uuid, action: string)

  /** What one attempt brings with it: the time, new route IDs, and what goes wrong with each statement. */
  datatype Attempt = Attempt(now: i64, ids: nat -> Uuid, faults: nat -> Fault)

  function RouteFor(q: Request, s: Subscription, a: Attempt, k: nat): Route {
    Route(a.ids(k), q.source, q.id, s.id, s.serviceId, a.now)
  }

  /**
   * The first error ends the attempt; `k` counts the statements already sent. Inclusive is the only delivery mode, so
   * the filter on it keeps every subscription.
   */
  function MaterializeFrom(t: Table, q: Request, matching: seq<Subscription>, a: Attempt, k: nat)
    : (Table, Result<seq<Route>, RequestError>)
    decreases |matching|
  {
    if matching == [] then (t, Ok([]))
    else
      var (after, first) := Materialize(t, RouteFor(q, matching[0], a, k), a.faults(k));
      match first
      case Err(error) => (after, Err(error))
      case Ok(route) =>
        var (last, rest) := MaterializeFrom(after, q, matching[1..], a, k + 1);
        (last, match rest case Err(error) => Err(error) case Ok(routes) => Ok([route] + routes))
  }

  function MaterializeRoutes(t: Table, subscriptions: seq<Subscription>, q: Request, a: Attempt, whitespace: char -> bool)
    : (Table, Result<seq<Route>, RequestError>)
  {
    match NewEventType(q.action, whitespace)
    case None => (t, Err(NotAnEventType))
    case Some(eventType) => MaterializeFrom(t, q, ActiveFor(subscriptions, eventType), a, 0)
  }

  /** The answer of a whole attempt from the routes already collected and the answer of the rest. */
  function Prepend(done: seq<Route>, rest: Result<seq<Route>, RequestError>): Result<seq<Route>, RequestError> {
    match rest case Err(error) => Err(error) case Ok(routes) => Ok(done + routes)
  }

  lemma PrependOne(done: seq<Route>, route: Route, rest: Result<seq<Route>, RequestError>)
    ensures Prepend(done + [route], rest) == Prepend(done, Prepend([route], rest))
  {
    if rest.Ok? { assert (done + [route]) + rest.value == done + ([route] + rest.value); }
  }

  lemma PrependNone(rest: Result<seq<Route>, RequestError>)
    ensures Prepend([], rest) == rest
  {
    if rest.Ok? { assert [] + rest.value == rest.value; }
  }

  method RouteRequest(repository: RouteRepository, subscriptions: seq<Subscription>, q: Request, a: Attempt,
                      whitespace: char -> bool)
    returns (result: Result<seq<Route>, RequestError>)
    modifies repository
    ensures (repository.routes, result) == MaterializeRoutes(old(repository.routes), subscriptions, q, a, whitespace)
  {
    hide NewEventType, Materialize, ActiveFor, Prepend;
    var eventType := NewEventType(q.action, whitespace);
    if eventType.None? { return Err(NotAnEventType); }
    var matching := ActiveFor(subscriptions, eventType.value);
    ghost var whole := MaterializeFrom(repository.routes, q, matching, a, 0);
    var collected := [];
    assert matching[0..] == matching;
    PrependNone(whole.1);
    for i := 0 to |matching|
      invariant whole.0 == MaterializeFrom(repository.routes, q, matching[i..], a, i).0
      invariant whole.1 == Prepend(collected, MaterializeFrom(repository.routes, q, matching[i..], a, i).1)
    {
      ghost var before := repository.routes;
      assert matching[i..][0] == matching[i] && matching[i..][1..] == matching[i + 1..];
      var route := repository.MaterializeRoute(RouteFor(q, matching[i], a, i), a.faults(i));
      ghost var rest := MaterializeFrom(repository.routes, q, matching[i + 1..], a, i + 1);
      FirstThenRest(before, q, matching[i..], a, i);
      if route.Err? {
        PrependError(collected, route.error);
        return Err(route.error);
      }
      PrependOne(collected, route.value, rest.1);
      collected := collected + [route.value];
    }
    PrependAll(collected);
    result := Ok(collected);
  }

  lemma PrependError(done: seq<Route>, error: RequestError)
    ensures Prepend(done, Err(error)) == Err(error)
  {
  }

  lemma PrependAll(done: seq<Route>)
    ensures Prepend(done, Ok([])) == Ok(done)
  {
    assert done + [] == done;
  }

  lemma FirstThenRest(t: Table, q: Request, matching: seq<Subscription>, a: Attempt, k: nat)
    requires matching != []
    ensures var (after, first) := Materialize(t, RouteFor(q, matching[0], a, k), a.faults(k));
            var rest := MaterializeFrom(after, q, matching[1..], a, k + 1);
            MaterializeFrom(t, q, matching, a, k) ==
            if first.Err? then (after, Err(first.error)) else (rest.0, Prepend([first.value], rest.1))
  {
  }

  /** An accepted request's action is always an event type, so that error is never the reason. */
  lemma ActionAlwaysRoutes(t: Table, subscriptions: seq<Subscription>, q: Request, a: Attempt, whitespace: char -> bool)
    requires IsValidActionName(q.action) && OutsideNames(whitespace)
    ensures MaterializeRoutes(t, subscriptions, q, a, whitespace) == MaterializeFrom(t, q, ActiveFor(subscriptions, q.action), a, 0)
  {
    ActionNameIsEventType(q.action, whitespace);
  }

  ghost predicate Faultless(a: Attempt) { a.now >= 0 && forall k: nat :: a.faults(k).NoFault? }

  ghost predicate RoutesFor(q: Request, t: Table, matching: seq<Subscription>, routes: seq<Route>) {
    |routes| == |matching| &&
    forall i | 0 <= i < |matching| :: (q.id, matching[i].id) in t && t[(q.id, matching[i].id)] == routes[i]
  }

  /** What an attempt adds: new routes of this request, to the destinations of the subscriptions it matched. */
  ghost predicate AddsOnly(q: Request, matching: seq<Subscription>, t: Table, u: Table) {
    Extends(t, u) &&
    forall k | k in u && k !in t :: exists s | s in matching ::
      k == (q.id, s.id) && u[k].source == q.source && u[k].requestId == q.id &&
      u[k].subscriptionId == s.id && u[k].destination == s.serviceId
  }

  lemma {:induction false} AttemptAddsOnly(t: Table, q: Request, matching: seq<Subscription>, a: Attempt, k: nat)
    ensures AddsOnly(q, matching, t, MaterializeFrom(t, q, matching, a, k).0)
    decreases |matching|
  {
    if matching != [] {
      var after := Materialize(t, RouteFor(q, matching[0], a, k), a.faults(k)).0;
      AttemptAddsOnly(after, q, matching[1..], a, k + 1);
      var u := MaterializeFrom(after, q, matching[1..], a, k + 1).0;
      assert AddsOnly(q, matching, t, after) by { assert matching[0] in matching; }
      AddsChain(q, matching, t, after, u);
    }
  }

  lemma AddsChain(q: Request, matching: seq<Subscription>, t: Table, mid: Table, u: Table)
    requires matching != [] && AddsOnly(q, matching, t, mid) && AddsOnly(q, matching[1..], mid, u)
    ensures AddsOnly(q, matching, t, u)
  {
    forall k | k in u && k !in t
      ensures exists s | s in matching ::
                k == (q.id, s.id) && u[k].source == q.source && u[k].requestId == q.id &&
                u[k].subscriptionId == s.id && u[k].destination == s.serviceId
    {
      if k !in mid {
        var s :| s in matching[1..] && k == (q.id, s.id) && u[k].source == q.source && u[k].requestId == q.id &&
                 u[k].subscriptionId == s.id && u[k].destination == s.serviceId;
        assert s in matching;
      }
    }
  }

  /** The row the statement numbered `n` adds: its own ID, this request, its subscription, and the attempt's time. */
  ghost predicate IsRowOf(q: Request, s: Subscription, a: Attempt, n: nat, r: Route) {
    r == Route(id := a.ids(n), source := q.source, requestId := q.id, subscriptionId := s.id,
               destination := s.serviceId, createdAt := a.now)
  }

  ghost predicate AddsTheseRows(q: Request, matching: seq<Subscription>, a: Attempt, k: nat, t: Table, u: Table) {
    forall key | key in u && key !in t :: exists i: nat | i < |matching| ::
      key == (q.id, matching[i].id) && IsRowOf(q, matching[i], a, k + i, u[key])
  }

  lemma StatementAddsItsRow(t: Table, q: Request, s: Subscription, a: Attempt, k: nat, key: Key)
    ensures var after := Materialize(t, RouteFor(q, s, a, k), a.faults(k)).0;
            key in after && key !in t ==> key == (q.id, s.id) && IsRowOf(q, s, a, k, after[key])
  {
  }

  lemma RowsChain(q: Request, matching: seq<Subscription>, a: Attempt, k: nat, t: Table, after: Table, u: Table)
    requires matching != [] && Extends(after, u) && AddsTheseRows(q, matching[1..], a, k + 1, after, u)
    requires forall key | key in after && key !in t :: key == (q.id, matching[0].id) && IsRowOf(q, matching[0], a, k, after[key])
    ensures AddsTheseRows(q, matching, a, k, t, u)
  {
    hide IsRowOf;
    var rest := matching[1..];
    forall key | key in u && key !in t
      ensures exists i: nat | i < |matching| :: key == (q.id, matching[i].id) && IsRowOf(q, matching[i], a, k + i, u[key])
    {
      if key in after {
        assert key == (q.id, matching[0].id) && IsRowOf(q, matching[0], a, k + 0, u[key]);
      } else {
        var i: nat :| i < |rest| && key == (q.id, rest[i].id) && IsRowOf(q, rest[i], a, k + 1 + i, u[key]);
        assert matching[i + 1] == rest[i] && k + (i + 1) == k + 1 + i;
      }
    }
  }

  /** Which rows an attempt adds, in full. */
  lemma {:induction false} AttemptAddsTheseRows(t: Table, q: Request, matching: seq<Subscription>, a: Attempt, k: nat)
    ensures AddsTheseRows(q, matching, a, k, t, MaterializeFrom(t, q, matching, a, k).0)
    decreases |matching|
  {
    hide AddsTheseRows, AddsOnly, Materialize, IsRowOf;
    if matching != [] {
      var rest := matching[1..];
      var (after, first) := Materialize(t, RouteFor(q, matching[0], a, k), a.faults(k));
      var u := if first.Err? then after else MaterializeFrom(after, q, rest, a, k + 1).0;
      AttemptAddsTheseRows(after, q, rest, a, k + 1);
      AttemptAddsOnly(after, q, rest, a, k + 1);
      forall key | key in after && key !in t
        ensures key == (q.id, matching[0].id) && IsRowOf(q, matching[0], a, k, after[key])
      {
        StatementAddsItsRow(t, q, matching[0], a, k, key);
      }
      if first.Err? { NoMoreRows(q, rest, a, k + 1, after); }
      ExtendsOf(q, rest, after, u);
      RowsChain(q, matching, a, k, t, after, u);
    } else {
      NoMoreRows(q, matching, a, k, t);
    }
  }

  lemma NoMoreRows(q: Request, matching: seq<Subscription>, a: Attempt, k: nat, t: Table)
    ensures AddsTheseRows(q, matching, a, k, t, t) && AddsOnly(q, matching, t, t)
  {
  }

  lemma ExtendsOf(q: Request, matching: seq<Subscription>, t: Table, u: Table)
    requires AddsOnly(q, matching, t, u)
    ensures Extends(t, u)
  {
  }

  /** One statement: refused for its time alone, answered with the fault, or with the stored row; kept unless it never ran. */
  lemma StatementAnsweredExactly(t: Table, r: Route, fault: Fault)
    ensures var (u, answer) := Materialize(t, r, fault);
            var key := (r.requestId, r.subscriptionId);
            answer == (if r.createdAt < 0 then Err(InvalidAcceptedAt)
                       else if fault.Before? || fault.After? then Err(fault.error)
                       else Ok(if key in t then t[key] else r)) &&
            (r.createdAt < 0 || fault.Before? ==> u == t) &&
            (0 <= r.createdAt && !fault.Before? ==> u == if key in t then t else t[key := r])
  {
    if KeyOf(r) in t { assert t[KeyOf(r) := t[KeyOf(r)]] == t; }
  }

  /** An attempt ends with the error of its first statement that goes wrong, and at its time if that is negative. */
  lemma {:induction false} AttemptFailsExactly(t: Table, q: Request, matching: seq<Subscription>, a: Attempt, k: nat)
    returns (n: nat)
    ensures n <= |matching| && forall i | k <= i < k + n :: a.faults(i).NoFault?
    ensures n < |matching| ==> a.now < 0 || !a.faults(k + n).NoFault?
    ensures 0 < n ==> a.now >= 0
    ensures var (u, answer) := MaterializeFrom(t, q, matching, a, k);
            (answer.Ok? <==> n == |matching|) &&
            (n < |matching| ==> answer == Err(if a.now < 0 then InvalidAcceptedAt else a.faults(k + n).error))
    decreases |matching|
  {
    n := 0;
    if matching != [] {
      StatementAnsweredExactly(t, RouteFor(q, matching[0], a, k), a.faults(k));
      if a.now >= 0 && a.faults(k).NoFault? {
        var after := Materialize(t, RouteFor(q, matching[0], a, k), a.faults(k)).0;
        var rest := AttemptFailsExactly(after, q, matching[1..], a, k + 1);
        n := rest + 1;
      }
    }
  }

  /** A faultless attempt is answered, and an answered one names the stored route of every subscription matched. */
  lemma {:induction false} AnsweredAttempt(t: Table, q: Request, matching: seq<Subscription>, a: Attempt, k: nat)
    ensures var (u, answer) := MaterializeFrom(t, q, matching, a, k);
            (Faultless(a) ==> answer.Ok?) && (answer.Ok? ==> RoutesFor(q, u, matching, answer.value))
    decreases |matching|
  {
    if matching != [] {
      var after := Materialize(t, RouteFor(q, matching[0], a, k), a.faults(k)).0;
      AnsweredAttempt(after, q, matching[1..], a, k + 1);
      AttemptAddsOnly(after, q, matching[1..], a, k + 1);
      var (u, answer) := MaterializeFrom(t, q, matching, a, k);
      if answer.Ok? { OneMoreRoute(q, matching, answer.value, after, u); }
      hide RoutesFor, AddsOnly;
    }
  }

  lemma OneMoreRoute(q: Request, matching: seq<Subscription>, routes: seq<Route>, after: Table, u: Table)
    requires matching != [] && routes != [] && RoutesFor(q, u, matching[1..], routes[1..]) && Extends(after, u)
    requires (q.id, matching[0].id) in after && after[(q.id, matching[0].id)] == routes[0]
    ensures RoutesFor(q, u, matching, routes)
  {
  }

  /** The attempt itself reports that an action is no event type exactly then, having written nothing. */
  lemma NotAnEventTypeExactly(t: Table, subscriptions: seq<Subscription>, q: Request, a: Attempt, whitespace: char -> bool)
    requires forall n: nat :: a.faults(n) != Before(NotAnEventType) && a.faults(n) != After(NotAnEventType)
    ensures var (u, answer) := MaterializeRoutes(t, subscriptions, q, a, whitespace);
            (answer == Err(NotAnEventType) <==> NewEventType(q.action, whitespace) == None) &&
            (answer == Err(NotAnEventType) ==> u == t)
  {
    hide NewEventType, MaterializeFrom;
    if NewEventType(q.action, whitespace).Some? {
      var n := AttemptFailsExactly(t, q, ActiveFor(subscriptions, NewEventType(q.action, whitespace).value), a, 0);
    }
  }

  // ---- Whose routes are answered ----

  predicate OwnSources(q: Request, routes: seq<Route>) { forall i | 0 <= i < |routes| :: routes[i].source == q.source }

  predicate OwnDestinations(matching: seq<Subscription>, routes: seq<Route>) {
    |routes| == |matching| && forall i | 0 <= i < |routes| :: routes[i].destination == matching[i].serviceId
  }

  /** No route stored for this request ID and these subscriptions has another source. */
  predicate NoOtherSource(t: Table, q: Request, matching: seq<Subscription>) {
    forall i | 0 <= i < |matching| :: (q.id, matching[i].id) in t ==> t[(q.id, matching[i].id)].source == q.source
  }

  predicate NoOtherDestination(t: Table, q: Request, matching: seq<Subscription>) {
    forall i | 0 <= i < |matching| ::
      (q.id, matching[i].id) in t ==> t[(q.id, matching[i].id)].destination == matching[i].serviceId
  }

  /** A subscription ID stands for one service, at both readings. */
  predicate OneServiceEach(a: seq<Subscription>, b: seq<Subscription>) {
    forall s, t | s in a && t in b && s.id == t.id :: s.serviceId == t.serviceId
  }

  lemma OwnExactly(t: Table, q: Request, added: seq<Subscription>, matching: seq<Subscription>, u: Table, routes: seq<Route>)
    requires AddsOnly(q, added, t, u) && RoutesFor(q, u, matching, routes)
    ensures OwnSources(q, routes) <==> NoOtherSource(t, q, matching)
    ensures OneServiceEach(added, matching) ==> (OwnDestinations(matching, routes) <==> NoOtherDestination(t, q, matching))
  {
    forall i | 0 <= i < |matching|
      ensures routes[i].source == q.source <==> ((q.id, matching[i].id) in t ==> t[(q.id, matching[i].id)].source == q.source)
      ensures OneServiceEach(added, matching) ==>
                (routes[i].destination == matching[i].serviceId <==>
                 ((q.id, matching[i].id) in t ==> t[(q.id, matching[i].id)].destination == matching[i].serviceId))
    {
      var k := (q.id, matching[i].id);
      if k !in t {
        var s :| s in added && k == (q.id, s.id) && u[k].source == q.source && u[k].requestId == q.id &&
                 u[k].subscriptionId == s.id && u[k].destination == s.serviceId;
        assert matching[i] in matching;
      }
    }
  }

  lemma ActiveKeepServices(before: seq<Subscription>, now: seq<Subscription>, eventType: string)
    requires OneServiceEach(before, now) && OneServiceEach(now, now)
    ensures OneServiceEach(ActiveFor(before, eventType) + ActiveFor(now, eventType), ActiveFor(now, eventType))
  {
    var a, b := ActiveFor(before, eventType), ActiveFor(now, eventType);
    forall s: Subscription, t: Subscription | s in a + b && t in b && s.id == t.id ensures s.serviceId == t.serviceId {
      ActiveForExactly(before, eventType, s);
      ActiveForExactly(now, eventType, s);
      ActiveForExactly(now, eventType, t);
    }
  }

  /**
   * The key leaves the source out, so a request is answered with routes of its own exactly when none is stored under its
   * ID and a matched subscription for another source; likewise for the destinations.
   */
  lemma OwnRoutesExactly(t: Table, subscriptions: seq<Subscription>, q: Request, a: Attempt, whitespace: char -> bool)
    requires IsValidActionName(q.action) && OutsideNames(whitespace)
    requires MaterializeRoutes(t, subscriptions, q, a, whitespace).1.Ok?
    ensures var routes := MaterializeRoutes(t, subscriptions, q, a, whitespace).1.value;
            var matching := ActiveFor(subscriptions, q.action);
            (OwnSources(q, routes) <==> NoOtherSource(t, q, matching)) &&
            (OneServiceEach(subscriptions, subscriptions) ==>
               (OwnDestinations(matching, routes) <==> NoOtherDestination(t, q, matching)))
  {
    ActionAlwaysRoutes(t, subscriptions, q, a, whitespace);
    var matching := ActiveFor(subscriptions, q.action);
    AttemptAddsOnly(t, q, matching, a, 0);
    AnsweredAttempt(t, q, matching, a, 0);
    var (u, answer) := MaterializeFrom(t, q, matching, a, 0);
    OwnExactly(t, q, matching, matching, u, answer.value);
    if OneServiceEach(subscriptions, subscriptions) { ActiveKeepServices(subscriptions, subscriptions, q.action); }
    hide MaterializeRoutes, MaterializeFrom, RoutesFor, AddsOnly, OwnSources, OwnDestinations, NoOtherSource, NoOtherDestination;
  }

  // ---- Trying again ----

  /**
   * What a retry leaves: a route for every subscription matched, of this request's source exactly when the table held
   * none of another source before the first attempt, and to the right destinations in the same way as long as
   * subscriptions keep their service.
   */
  ghost predicate Repaired(t: Table, q: Request, before: seq<Subscription>, now: seq<Subscription>, u: Table, routes: seq<Route>) {
    var matching := ActiveFor(now, q.action);
    RoutesFor(q, u, matching, routes) &&
    (OwnSources(q, routes) <==> NoOtherSource(t, q, matching)) &&
    (OneServiceEach(before, now) && OneServiceEach(now, now) ==>
       (OwnDestinations(matching, routes) <==> NoOtherDestination(t, q, matching)))
  }

  /**
   * An attempt that fails anywhere and is retried leaves exactly one route for each subscription active at the retry,
   * keeps every route there was, and adds nothing but routes of this request for subscriptions that matched.
   */
  lemma RetryCompletes(t: Table, q: Request, before: seq<Subscription>, first: Attempt, now: seq<Subscription>,
                       retry: Attempt, whitespace: char -> bool)
    requires IsValidActionName(q.action) && OutsideNames(whitespace) && Faultless(retry)
    ensures var mid := MaterializeRoutes(t, before, q, first, whitespace).0;
            var (u, answer) := MaterializeRoutes(mid, now, q, retry, whitespace);
            answer.Ok? && Repaired(t, q, before, now, u, answer.value) &&
            Extends(t, mid) && Extends(mid, u) && AddsOnly(q, ActiveFor(before, q.action) + ActiveFor(now, q.action), t, u)
  {
    hide Materialize, IsValidActionName, RoutesFor, AddsOnly, MaterializeFrom, ActiveFor, OneServiceEach;
    var a, b := ActiveFor(before, q.action), ActiveFor(now, q.action);
    ActionAlwaysRoutes(t, before, q, first, whitespace);
    var mid := MaterializeRoutes(t, before, q, first, whitespace).0;
    ActionAlwaysRoutes(mid, now, q, retry, whitespace);
    hide MaterializeRoutes;
    AttemptAddsOnly(t, q, a, first, 0);
    AttemptAddsOnly(mid, q, b, retry, 0);
    AnsweredAttempt(mid, q, b, retry, 0);
    var (u, answer) := MaterializeRoutes(mid, now, q, retry, whitespace);
    BothAdd(q, a, b, t, mid, u);
    if OneServiceEach(before, now) && OneServiceEach(now, now) { ActiveKeepServices(before, now, q.action); }
    OwnExactly(t, q, a + b, b, u, answer.value);
  }

  lemma BothAdd(q: Request, a: seq<Subscription>, b: seq<Subscription>, t: Table, mid: Table, u: Table)
    requires AddsOnly(q, a, t, mid) && AddsOnly(q, b, mid, u)
    ensures AddsOnly(q, a + b, t, u) && Extends(t, mid) && Extends(mid, u)
  {
    forall k | k in u && k !in t
      ensures exists s | s in a + b ::
                k == (q.id, s.id) && u[k].source == q.source && u[k].requestId == q.id &&
                u[k].subscriptionId == s.id && u[k].destination == s.serviceId
    {
      if k in mid {
        var s :| s in a && k == (q.id, s.id) && mid[k].source == q.source && mid[k].requestId == q.id &&
                 mid[k].subscriptionId == s.id && mid[k].destination == s.serviceId;
        assert s in a + b;
      } else {
        var s :| s in b && k == (q.id, s.id) && u[k].source == q.source && u[k].requestId == q.id &&
                 u[k].subscriptionId == s.id && u[k].destination == s.serviceId;
        assert s in a + b;
      }
    }
  }

  /** What a request is handed when another source's request of the same ID came first: that source's route. */
  lemma KeyLeavesSourceOut(t: Table, r: Route, other: Route)
    requires r.createdAt >= 0 && KeyOf(r) == KeyOf(other) && KeyOf(r) !in t && other.source != r.source && other.createdAt >= 0
    ensures Materialize(Materialize(t, r, NoFault).0, other, NoFault).1 == Ok(r)
  {
  }
}
