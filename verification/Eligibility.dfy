/** The eligible-route query: three separate reads, and what they say about claiming. */
module Eligibility {
  import opened Foundations
  import opened WorkClaims
  import opened ClaimSafety

  /** A listing of the routes to one destination, each once. */
  ghost predicate Lists(t: Table, destination: Uuid, listed: seq<Uuid>) {
    (forall r :: r in listed <==> r in t.routes && t.routes[r] == destination) &&
    forall i, j | 0 <= i < j < |listed| :: listed[i] != listed[j]
  }

  predicate HasActive(claims: seq<WorkClaim>, route: Uuid, now: i64) {
    exists i | 0 <= i < |claims| :: claims[i].routeId == route && IsCurrent(claims[i], now)
  }

  predicate HasCompleted(claims: seq<WorkClaim>, route: Uuid) {
    exists i | 0 <= i < |claims| :: claims[i].routeId == route && claims[i].status.Completed?
  }

  function ActiveRouteIds(t: Table, ids: seq<Uuid>, now: i64): set<Uuid> {
    set r | r in ids && HasActive(t.claims, r, now)
  }

  function CompletedRouteIds(t: Table, ids: seq<Uuid>): set<Uuid> {
    set r | r in ids && HasCompleted(t.claims, r)
  }

  function Without(listed: seq<Uuid>, claimed: set<Uuid>, completed: set<Uuid>): seq<Uuid> {
    if listed == [] then []
    else
      var rest, last := Without(listed[..|listed| - 1], claimed, completed), listed[|listed| - 1];
      if last !in claimed && last !in completed then rest + [last] else rest
  }

  /** The answer when the active claims are read from `active` and the completed ones from `done`. */
  function EligibleFor(listed: seq<Uuid>, active: Table, done: Table, now: i64): Result<seq<Uuid>, WorkClaimError> {
    if now < 0 then Err(Repository)
    else Ok(Without(listed, ActiveRouteIds(active, listed, now), CompletedRouteIds(done, listed)))
  }

  lemma {:induction false} WithoutKeeps(listed: seq<Uuid>, claimed: set<Uuid>, completed: set<Uuid>)
    ensures forall r :: r in Without(listed, claimed, completed) <==> r in listed && r !in claimed && r !in completed
  {
    if listed != [] {
      WithoutKeeps(listed[..|listed| - 1], claimed, completed);
      assert listed == listed[..|listed| - 1] + [listed[|listed| - 1]];
    }
  }

  /** The answer keeps the listing's order: it is worked out piece by piece. */
  lemma {:induction false} WithoutJoins(a: seq<Uuid>, b: seq<Uuid>, claimed: set<Uuid>, completed: set<Uuid>)
    ensures Without(a + b, claimed, completed) == Without(a, claimed, completed) + Without(b, claimed, completed)
  {
    if b == [] {
      assert a + b == a;
    } else {
      var n := |b| - 1;
      WithoutJoins(a, b[..n], claimed, completed);
      assert (a + b)[..|a| + n] == a + b[..n];
    }
  }

  /** A row that is active or completed is its route's last. */
  lemma HeldRowIsLast(claims: seq<WorkClaim>, i: int, j: nat)
    requires OnlyNewestHeld(claims) && j < |claims| && LastOn(claims, claims[j].routeId, i)
    requires claims[j].status.Active? || claims[j].status.Completed?
    ensures i == j
  {
  }

  lemma LatestIsHeld(t: Table, route: Uuid, now: i64)
    requires Invariant(t)
    ensures var latest := Latest(t.claims, route);
            (latest.Some? && IsCurrent(latest.value, now) <==> HasActive(t.claims, route, now)) &&
            (latest.Some? && latest.value.status.Completed? <==> HasCompleted(t.claims, route))
  {
    var i := LatestIsLastRow(t.claims, route);
    if HasActive(t.claims, route, now) {
      var j :| 0 <= j < |t.claims| && t.claims[j].routeId == route && IsCurrent(t.claims[j], now);
      HeldRowIsLast(t.claims, i, j);
    }
    if HasCompleted(t.claims, route) {
      var j :| 0 <= j < |t.claims| && t.claims[j].routeId == route && t.claims[j].status.Completed?;
      HeldRowIsLast(t.claims, i, j);
    }
    hide Invariant, Latest;
  }

  /** On a sound table the two reads together say exactly whether a claim would be granted. */
  lemma ReadsDecideClaimable(t: Table, route: Uuid, now: i64)
    requires Invariant(t)
    ensures Claimable(t, route, now) <==> !HasActive(t.claims, route, now) && !HasCompleted(t.claims, route)
  {
    LatestIsHeld(t, route, now);
    hide Invariant, Latest, HasActive, HasCompleted;
  }

  /** Every answer to a claim, from the rows alone: the first thing that stands in its way, or the next token. */
  lemma ClaimAnsweredExactly(t: Table, op: Op)
    requires Invariant(t) && op.ClaimOp?
    ensures Apply(t, op).1 ==
            if !(0 <= op.now < op.lease) then Err(InvalidLease)
            else if op.route !in t.routes || t.routes[op.route] != op.service then Err(RouteNotFound)
            else if HasActive(t.claims, op.route, op.now) then Err(AlreadyClaimed)
            else if HasCompleted(t.claims, op.route) then Err(AlreadyCompleted)
            else if IdUsed(t, op.freshId) then Err(Repository)
            else Ok(NextClaim(t, op))
  {
    LatestIsHeld(t, op.route, op.now);
    ClaimGrantedExactly(t, op);
    if 0 <= op.now < op.lease && op.route in t.routes && t.routes[op.route] == op.service && Claimable(t, op.route, op.now) {
      SupersedeKeepsInvariant(t, op.route);
      ClaimWrites(t, op);
    }
    hide Invariant, Latest, Supersede, InsertPermitted, HasActive, HasCompleted, IdUsed, NextClaim;
  }

  lemma CompletionPersists(t: Table, events: seq<Event>, route: Uuid)
    requires Invariant(t) && HasCompleted(t.claims, route)
    ensures HasCompleted(RunFrom(t, events).claims, route)
  {
    RunAdvances(t, events);
    var i :| 0 <= i < |t.claims| && t.claims[i].routeId == route && t.claims[i].status.Completed?;
    assert Advanced(t.claims[i], RunFrom(t, events).claims[i]);
  }

  lemma {:induction false} RoutesPersist(t: Table, events: seq<Event>)
    requires Invariant(t)
    ensures forall r | r in t.routes :: r in RunFrom(t, events).routes && RunFrom(t, events).routes[r] == t.routes[r]
  {
    if events != [] {
      var u, e := RunFrom(t, events[..|events| - 1]), events[|events| - 1];
      RoutesPersist(t, events[..|events| - 1]);
      assert e.Called? ==> Apply(u, e.op).0.routes == u.routes;
    }
  }

  /** `claim` would be granted to this destination at this moment, under any unused claim ID. */
  /** The query fails exactly for a negative time. */
  lemma QueryNeedsTime(listed: seq<Uuid>, active: Table, done: Table, now: i64)
    ensures EligibleFor(listed, active, done, now) == Err(Repository) <==> now < 0
    ensures EligibleFor(listed, active, done, now).Err? <==> now < 0
  {
  }

  ghost predicate WouldBeGranted(t: Table, route: Uuid, destination: Uuid, now: i64) {
    forall worker, lease: i64, id | lease > now && !IdUsed(t, id) ::
      Apply(t, ClaimOp(route, destination, worker, lease, now, id)).1.Ok?
  }

  lemma ClaimableMeansGranted(t: Table, route: Uuid, destination: Uuid, now: i64)
    requires Invariant(t) && 0 <= now && route in t.routes && t.routes[route] == destination && Claimable(t, route, now)
    ensures WouldBeGranted(t, route, destination, now)
  {
    hide Invariant, Claimable;
    forall worker, lease: i64, id | lease > now && !IdUsed(t, id)
      ensures Apply(t, ClaimOp(route, destination, worker, lease, now, id)).1.Ok?
    {
      ClaimGrantedExactly(t, ClaimOp(route, destination, worker, lease, now, id));
    }
  }

  lemma UnclaimableMeansRefused(t: Table, op: Op)
    requires Invariant(t) && op.ClaimOp? && !Claimable(t, op.route, op.now)
    ensures Apply(t, op).1.Err?
  {
    ClaimGrantedExactly(t, op);
  }

  /**
   With any claim steps between the listing, the active read and the completed read, the query returns
   exactly the listed routes that could be claimed at the active read and were not completed by the
   completed read.
   */
  lemma EligibleRoutesExactly(before: seq<Event>, between: seq<Event>, after: seq<Event>,
                              destination: Uuid, listed: seq<Uuid>, now: i64, route: Uuid)
    requires Lists(RunFrom(EMPTY, before), destination, listed) && 0 <= now
    ensures var active := RunFrom(RunFrom(EMPTY, before), between);
            var done := RunFrom(active, after);
            var answer := EligibleFor(listed, active, done, now).value;
            (route in answer <==>
               route in listed && Claimable(active, route, now) && !HasCompleted(done.claims, route)) &&
            (route in answer ==> WouldBeGranted(active, route, destination, now))
  {
    var t := RunFrom(EMPTY, before);
    var active := RunFrom(t, between);
    var done := RunFrom(active, after);
    ReachableTablesAreSound(before);
    RunKeepsInvariant(t, between);
    RoutesPersist(t, between);
    WithoutKeeps(listed, ActiveRouteIds(active, listed, now), CompletedRouteIds(done, listed));
    ReadsDecideClaimable(active, route, now);
    if HasCompleted(active.claims, route) { CompletionPersists(active, after, route); }
    if route in listed && Claimable(active, route, now) { ClaimableMeansGranted(active, route, destination, now); }
  }

  /** With nothing in between, the query returns exactly the routes this destination could claim now. */
  lemma UndisturbedQueryIsExact(events: seq<Event>, destination: Uuid, listed: seq<Uuid>, now: i64, op: Op)
    requires Lists(RunFrom(EMPTY, events), destination, listed) && 0 <= now
    requires op.ClaimOp? && op.service == destination && op.now == now && op.lease > now
    requires !IdUsed(RunFrom(EMPTY, events), op.freshId)
    ensures var t := RunFrom(EMPTY, events);
            op.route in EligibleFor(listed, t, t, now).value <==> Apply(t, op).1.Ok?
  {
    var t := RunFrom(EMPTY, events);
    ReachableTablesAreSound(events);
    WithoutKeeps(listed, ActiveRouteIds(t, listed, now), CompletedRouteIds(t, listed));
    ReadsDecideClaimable(t, op.route, now);
    ClaimGrantedExactly(t, op);
  }

  /** Read the other way round, a completion in between yields a route that can never be claimed again. */
  lemma SwappedReadsOfferCompletedRoutes(t: Table, i: nat, listed: seq<Uuid>, now: i64, later: Op)
    requires Invariant(t) && i < |t.claims| && IsCurrent(t.claims[i], now) && 0 <= now && t.claims[i].routeId in listed
    requires later.ClaimOp? && later.route == t.claims[i].routeId
    ensures var u := Apply(t, CompleteOp(t.claims[i].id, t.claims[i].fencingToken, now)).0;
            t.claims[i].routeId in EligibleFor(listed, u, t, now).value && Apply(u, later).1.Err?
  {
    var op := CompleteOp(t.claims[i].id, t.claims[i].fencingToken, now);
    var u, route := Apply(t, op).0, t.claims[i].routeId;
    HolderAnsweredExactly(t, op, i);
    assert u.claims[i].status.Completed? && u.claims[i].routeId == route;
    WithoutKeeps(listed, ActiveRouteIds(u, listed, now), CompletedRouteIds(t, listed));
    CompletedRouteHasNoActive(u, i, now);
    ReadsDecideClaimable(u, route, later.now);
    UnclaimableMeansRefused(u, later);
    HeldRouteIsNotCompleted(t, i);
  }

  lemma CompletedRouteHasNoActive(t: Table, i: nat, now: i64)
    requires Invariant(t) && i < |t.claims| && t.claims[i].status.Completed?
    ensures !HasActive(t.claims, t.claims[i].routeId, now)
  {
  }

  lemma HeldRouteIsNotCompleted(t: Table, i: nat)
    requires Invariant(t) && i < |t.claims| && t.claims[i].status.Active?
    ensures !HasCompleted(t.claims, t.claims[i].routeId)
  {
  }
}
