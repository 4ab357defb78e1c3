/** Work claims: one current hold on a route, numbered by fencing tokens that never repeat. */
module WorkClaims {
  import opened Foundations

  datatype Status = Active | Completed | Released | Expired

  datatype WorkClaim = WorkClaim(
    id: Uuid, routeId: Uuid, workerService: Uuid, workerInstance: Uuid,
    fencingToken: int, status: Status, claimedAt: i64, leaseExpiresAt: i64)

  datatype WorkClaimError =
    InvalidLease | RouteNotFound | AlreadyClaimed | AlreadyCompleted | NotFound | Fenced | Repository

  /** Routes by ID with their destination service, and every claim ever made, oldest first. */
  datatype Table = Table(routes: map<Uuid, Uuid>, claims: seq<WorkClaim>)

  predicate IsCurrent(c: WorkClaim, now: i64) { c.status.Active? && c.leaseExpiresAt > now }

  /** The stored row is one `WorkClaim::restore` accepts. */
  predicate Restorable(c: WorkClaim) { c.fencingToken >= 1 && 0 <= c.claimedAt < c.leaseExpiresAt }

  /** The claim on a route with the highest fencing token. */
  function Latest(claims: seq<WorkClaim>, route: Uuid): Option<WorkClaim> {
    if claims == [] then None
    else
      var last, earlier := claims[|claims| - 1], Latest(claims[..|claims| - 1], route);
      if last.routeId != route then earlier
      else if earlier.Some? && earlier.value.fencingToken > last.fencingToken then earlier
      else Some(last)
  }

  function Find(claims: seq<WorkClaim>, id: Uuid): Option<WorkClaim> {
    if claims == [] then None
    else if claims[|claims| - 1].id == id then Some(claims[|claims| - 1])
    else Find(claims[..|claims| - 1], id)
  }

  /** An update of the row with this ID, every other row as it was. */
  function Update(claims: seq<WorkClaim>, c: WorkClaim): seq<WorkClaim> {
    seq(|claims|, i requires 0 <= i < |claims| => if claims[i].id == c.id then c else claims[i])
  }

  /** The row trigger: only the status may change, once, or the lease of an active row, upwards. */
  predicate UpdatePermitted(before: WorkClaim, after: WorkClaim) {
    after == before.(status := after.status, leaseExpiresAt := after.leaseExpiresAt) &&
    before.status.Active? &&
    if after.status.Active? then after.leaseExpiresAt > before.leaseExpiresAt
    else after.leaseExpiresAt == before.leaseExpiresAt
  }

  /** Unique claim IDs, unique tokens within a route, at most one active row a route. */
  predicate InsertPermitted(claims: seq<WorkClaim>, c: WorkClaim) {
    forall i | 0 <= i < |claims| ::
      claims[i].id != c.id &&
      (claims[i].routeId == c.routeId ==> claims[i].fencingToken != c.fencingToken && !claims[i].status.Active?)
  }

  /** The rows after the latest claim, if still marked active, has been marked expired. */
  function Supersede(claims: seq<WorkClaim>, latest: Option<WorkClaim>): Option<seq<WorkClaim>> {
    if latest.Some? && latest.value.status.Active? then
      var expired := latest.value.(status := Expired);
      if UpdatePermitted(latest.value, expired) then Some(Update(claims, expired)) else None
    else Some(claims)
  }

  // ---- The operations, each one transaction ----

  function Claim(t: Table, route: Uuid, service: Uuid, worker: Uuid, lease: i64, now: i64, freshId: Uuid)
    : (Table, Result<WorkClaim, WorkClaimError>)
  {
    if now < 0 || lease <= now then (t, Err(InvalidLease))
    else if route !in t.routes || t.routes[route] != service then (t, Err(RouteNotFound))
    else
      var latest := Latest(t.claims, route);
      if latest.Some? && IsCurrent(latest.value, now) then (t, Err(AlreadyClaimed))
      else if latest.Some? && latest.value.status.Completed? then (t, Err(AlreadyCompleted))
      else
        var token := if latest.Some? then latest.value.fencingToken + 1 else 1;
        var claim := WorkClaim(freshId, route, service, worker, token, Active, now, lease);
        var rows := Supersede(t.claims, latest);
        if rows.None? || !InsertPermitted(rows.value, claim) || !Restorable(claim) then (t, Err(Repository))
        else (t.(claims := rows.value + [claim]), Ok(claim))
  }

  /** The claim named, if the token matches and it is still current. */
  function LockCurrent(t: Table, id: Uuid, token: int, now: i64): Result<WorkClaim, WorkClaimError> {
    match Find(t.claims, id)
    case None => Err(NotFound)
    case Some(c) => if c.fencingToken != token || !IsCurrent(c, now) then Err(Fenced) else Ok(c)
  }

  function Write(t: Table, before: WorkClaim, after: WorkClaim): (Table, Result<WorkClaim, WorkClaimError>) {
    if !UpdatePermitted(before, after) || !Restorable(after) then (t, Err(Repository))
    else (t.(claims := Update(t.claims, after)), Ok(after))
  }

  function Renew(t: Table, id: Uuid, token: int, lease: i64, now: i64): (Table, Result<WorkClaim, WorkClaimError>) {
    if now < 0 || lease <= now then (t, Err(InvalidLease))
    else
      match LockCurrent(t, id, token, now)
      case Err(e) => (t, Err(e))
      case Ok(c) => Write(t, c, c.(leaseExpiresAt := lease))
  }

  function Transition(t: Table, id: Uuid, token: int, now: i64, status: Status)
    : (Table, Result<WorkClaim, WorkClaimError>)
  {
    if now < 0 then (t, Err(InvalidLease))
    else
      match LockCurrent(t, id, token, now)
      case Err(e) => (t, Err(e))
      case Ok(c) => Write(t, c, c.(status := status))
  }

  datatype Op =
    | ClaimOp(route: Uuid, service: Uuid, worker: Uuid, lease: i64, now: i64, freshId: Uuid)
    | RenewOp(id: Uuid, token: int, lease: i64, now: i64)
    | ReleaseOp(id: Uuid, token: int, now: i64)
    | CompleteOp(id: Uuid, token: int, now: i64)

  function Apply(t: Table, op: Op): (Table, Result<WorkClaim, WorkClaimError>) {
    match op
    case ClaimOp(route, service, worker, lease, now, freshId) => Claim(t, route, service, worker, lease, now, freshId)
    case RenewOp(id, token, lease, now) => Renew(t, id, token, lease, now)
    case ReleaseOp(id, token, now) => Transition(t, id, token, now, Released)
    case CompleteOp(id, token, now) => Transition(t, id, token, now, Completed)
  }

  /** Routes are materialized by another component; they are only ever added. */
  datatype Event = RouteAdded(route: Uuid, destination: Uuid) | Called(op: Op)

  function After(t: Table, e: Event): Table {
    match e
    case RouteAdded(route, destination) => if route in t.routes then t else t.(routes := t.routes[route := destination])
    case Called(op) => Apply(t, op).0
  }

  function RunFrom(t: Table, events: seq<Event>): Table {
    if events == [] then t else After(RunFrom(t, events[..|events| - 1]), events[|events| - 1])
  }

  const EMPTY := Table(map[], [])

  /** The repository behind the service's argument checks. */
  class WorkClaimRepository {
    var routes: map<Uuid, Uuid>
    var claims: seq<WorkClaim>

    constructor ()
      ensures Contents() == EMPTY
    {
      routes, claims := map[], [];
    }

    function Contents(): Table
      reads this
    {
      Table(routes, claims)
    }

    method ClaimRoute(route: Uuid, service: Uuid, worker: Uuid, lease: i64, now: i64, freshId: Uuid)
      returns (answer: Result<WorkClaim, WorkClaimError>)
      modifies this`claims
      ensures (Contents(), answer) == Apply(old(Contents()), ClaimOp(route, service, worker, lease, now, freshId))
    {
      if now < 0 || lease <= now { return Err(InvalidLease); }
      if route !in routes || routes[route] != service { return Err(RouteNotFound); }
      var latest := Latest(claims, route);
      if latest.Some? && IsCurrent(latest.value, now) { return Err(AlreadyClaimed); }
      if latest.Some? && latest.value.status.Completed? { return Err(AlreadyCompleted); }
      var rows, token := claims, 1;
      if latest.Some? {
        if latest.value.status.Active? {
          var expired := latest.value.(status := Expired);
          if !UpdatePermitted(latest.value, expired) { return Err(Repository); }
          rows := Update(rows, expired);
        }
        token := latest.value.fencingToken + 1;
      }
      var claim := WorkClaim(freshId, route, service, worker, token, Active, now, lease);
      if !InsertPermitted(rows, claim) || !Restorable(claim) { return Err(Repository); }
      claims := rows + [claim];
      return Ok(claim);
    }

    method RenewClaim(id: Uuid, token: int, lease: i64, now: i64) returns (answer: Result<WorkClaim, WorkClaimError>)
      modifies this`claims
      ensures (Contents(), answer) == Apply(old(Contents()), RenewOp(id, token, lease, now))
    {
      if now < 0 || lease <= now { return Err(InvalidLease); }
      var current := LockCurrent(Contents(), id, token, now);
      if current.Err? { return Err(current.error); }
      var renewed := current.value.(leaseExpiresAt := lease);
      if !UpdatePermitted(current.value, renewed) || !Restorable(renewed) { return Err(Repository); }
      claims := Update(claims, renewed);
      return Ok(renewed);
    }

    method Release(id: Uuid, token: int, now: i64) returns (answer: Result<WorkClaim, WorkClaimError>)
      modifies this`claims
      ensures (Contents(), answer) == Apply(old(Contents()), ReleaseOp(id, token, now))
    {
      answer := MoveTo(id, token, now, Released);
    }

    method Complete(id: Uuid, token: int, now: i64) returns (answer: Result<WorkClaim, WorkClaimError>)
      modifies this`claims
      ensures (Contents(), answer) == Apply(old(Contents()), CompleteOp(id, token, now))
    {
      answer := MoveTo(id, token, now, Completed);
    }

    method MoveTo(id: Uuid, token: int, now: i64, status: Status) returns (answer: Result<WorkClaim, WorkClaimError>)
      modifies this`claims
      ensures (Contents(), answer) == Transition(old(Contents()), id, token, now, status)
    {
      if now < 0 { return Err(InvalidLease); }
      var current := LockCurrent(Contents(), id, token, now);
      if current.Err? { return Err(current.error); }
      var moved := current.value.(status := status);
      if !UpdatePermitted(current.value, moved) || !Restorable(moved) { return Err(Repository); }
      claims := Update(claims, moved);
      return Ok(moved);
    }
  }
}
