/** What every reachable claims table satisfies, and what no run of claim operations can do. */
module ClaimSafety {
  import opened Foundations
  import opened WorkClaims

  function CountOn(claims: seq<WorkClaim>, route: Uuid): nat {
    if claims == [] then 0
    else CountOn(claims[..|claims| - 1], route) + if claims[|claims| - 1].routeId == route then 1 else 0
  }

  predicate Superseded(c: WorkClaim) { c.status.Released? || c.status.Expired? }

  ghost predicate DistinctIds(claims: seq<WorkClaim>) {
    forall i, j | 0 <= i < j < |claims| :: claims[i].id != claims[j].id
  }

  /** Each row's token is its place among the rows of its route. */
  ghost predicate Numbered(claims: seq<WorkClaim>) {
    forall i | 0 <= i < |claims| :: claims[i].fencingToken == CountOn(claims[..i], claims[i].routeId) + 1
  }

  /** A row with a later row on its route is released or expired. */
  ghost predicate OnlyNewestHeld(claims: seq<WorkClaim>) {
    forall i, j | 0 <= i < j < |claims| && claims[i].routeId == claims[j].routeId :: Superseded(claims[i])
  }

  ghost predicate RowsSound(t: Table) {
    forall i | 0 <= i < |t.claims| ::
      Restorable(t.claims[i]) && t.claims[i].routeId in t.routes &&
      t.claims[i].workerService == t.routes[t.claims[i].routeId]
  }

  ghost predicate Invariant(t: Table) {
    DistinctIds(t.claims) && Numbered(t.claims) && OnlyNewestHeld(t.claims) && RowsSound(t)
  }

  // ---- Reading the table ----

  lemma {:induction false} CountGrows(claims: seq<WorkClaim>, i: nat, j: nat, route: Uuid)
    requires i <= j <= |claims|
    ensures CountOn(claims[..i], route) <= CountOn(claims[..j], route)
    ensures (exists k | i <= k < j :: claims[k].routeId == route) ==> CountOn(claims[..i], route) < CountOn(claims[..j], route)
    ensures (forall k | i <= k < j :: claims[k].routeId != route) ==> CountOn(claims[..i], route) == CountOn(claims[..j], route)
    decreases j
  {
    if i < j {
      assert claims[..j][..j - 1] == claims[..j - 1];
      CountGrows(claims, i, j - 1, route);
    }
  }

  predicate LastOn(claims: seq<WorkClaim>, route: Uuid, i: int) {
    0 <= i < |claims| && claims[i].routeId == route && forall j | i < j < |claims| :: claims[j].routeId != route
  }

  lemma NumberedFront(claims: seq<WorkClaim>)
    requires Numbered(claims) && claims != []
    ensures Numbered(claims[..|claims| - 1])
  {
    var front := claims[..|claims| - 1];
    forall i | 0 <= i < |front|
      ensures front[i].fencingToken == CountOn(front[..i], front[i].routeId) + 1
    {
      assert front[..i] == claims[..i];
    }
  }

  /** `i` is where the latest claim on the route stands, if there is one. */
  ghost predicate Locates(claims: seq<WorkClaim>, route: Uuid, i: int) {
    var latest := Latest(claims, route);
    (latest.None? ==> CountOn(claims, route) == 0 && forall j | 0 <= j < |claims| :: claims[j].routeId != route) &&
    (latest.Some? ==> LastOn(claims, route, i) && latest.value == claims[i] &&
                      claims[i].fencingToken == CountOn(claims, route) >= 1)
  }

  lemma LocatesAfterAppend(claims: seq<WorkClaim>, route: Uuid, i: int)
    requires claims != [] && Locates(claims[..|claims| - 1], route, i)
    requires claims[|claims| - 1].fencingToken == CountOn(claims[..|claims| - 1], claims[|claims| - 1].routeId) + 1
    ensures Locates(claims, route, if claims[|claims| - 1].routeId == route then |claims| - 1 else i)
  {
  }

  /** The latest claim is the last row of its route, and its token counts the rows. */
  lemma {:induction false} LatestIsLastRow(claims: seq<WorkClaim>, route: Uuid) returns (i: int)
    requires Numbered(claims)
    ensures Locates(claims, route, i)
  {
    i := -1;
    if claims != [] {
      var n := |claims| - 1;
      NumberedFront(claims);
      i := LatestIsLastRow(claims[..n], route);
      assert claims[n].fencingToken == CountOn(claims[..n], claims[n].routeId) + 1;
      LocatesAfterAppend(claims, route, i);
      if claims[n].routeId == route { i := n; }
    }
  }

  lemma {:induction false} FindGivesRow(claims: seq<WorkClaim>, id: Uuid) returns (i: int)
    ensures Find(claims, id).Some? ==> 0 <= i < |claims| && claims[i] == Find(claims, id).value && claims[i].id == id
    ensures Find(claims, id).None? ==> forall j | 0 <= j < |claims| :: claims[j].id != id
  {
    i := -1;
    if claims != [] {
      i := FindGivesRow(claims[..|claims| - 1], id);
      if claims[|claims| - 1].id == id { i := |claims| - 1; }
    }
  }

  lemma UpdateIsAtOneRow(claims: seq<WorkClaim>, i: nat, c: WorkClaim)
    requires DistinctIds(claims) && i < |claims| && claims[i].id == c.id
    ensures Update(claims, c) == claims[i := c]
  {
  }

  // ---- The invariant is inductive ----

  lemma {:induction false} CountIgnoresStatus(a: seq<WorkClaim>, b: seq<WorkClaim>, route: Uuid)
    requires |a| == |b| && forall i | 0 <= i < |a| :: a[i].routeId == b[i].routeId
    ensures CountOn(a, route) == CountOn(b, route)
  {
    if a != [] { CountIgnoresStatus(a[..|a| - 1], b[..|b| - 1], route); }
  }

  lemma WriteKeepsNumbers(claims: seq<WorkClaim>, i: nat, c: WorkClaim)
    requires Numbered(claims) && i < |claims| && UpdatePermitted(claims[i], c)
    ensures Numbered(claims[i := c])
  {
    var claims' := claims[i := c];
    forall j | 0 <= j < |claims'|
      ensures claims'[j].fencingToken == CountOn(claims'[..j], claims'[j].routeId) + 1
    {
      CountIgnoresStatus(claims'[..j], claims[..j], claims'[j].routeId);
      assert claims[j].fencingToken == CountOn(claims[..j], claims[j].routeId) + 1;
    }
  }

  lemma WriteKeepsIds(claims: seq<WorkClaim>, i: nat, c: WorkClaim)
    requires DistinctIds(claims) && i < |claims| && c.id == claims[i].id
    ensures DistinctIds(claims[i := c])
  {
  }

  lemma WriteKeepsRows(t: Table, i: nat, c: WorkClaim)
    requires RowsSound(t) && i < |t.claims| && UpdatePermitted(t.claims[i], c) && Restorable(c)
    ensures RowsSound(t.(claims := t.claims[i := c]))
  {
  }

  /** Only a route's newest row can be active, so changing an active row disturbs no other. */
  lemma WriteKeepsNewest(claims: seq<WorkClaim>, i: nat, c: WorkClaim)
    requires OnlyNewestHeld(claims) && i < |claims| && UpdatePermitted(claims[i], c)
    ensures OnlyNewestHeld(claims[i := c])
  {
    var claims' := claims[i := c];
    forall a, b | 0 <= a < b < |claims'| && claims'[a].routeId == claims'[b].routeId
      ensures Superseded(claims'[a])
    {
      assert claims[a].routeId == claims[b].routeId;
      assert a != i;
    }
  }

  lemma WriteKeepsInvariant(t: Table, i: nat, c: WorkClaim)
    requires Invariant(t) && i < |t.claims| && UpdatePermitted(t.claims[i], c) && Restorable(c)
    ensures Invariant(t.(claims := t.claims[i := c]))
  {
    WriteKeepsNumbers(t.claims, i, c);
    WriteKeepsIds(t.claims, i, c);
    WriteKeepsRows(t, i, c);
    WriteKeepsNewest(t.claims, i, c);
    hide Numbered, DistinctIds, RowsSound, OnlyNewestHeld;
  }

  lemma AppendKeepsInvariant(t: Table, c: WorkClaim)
    requires Invariant(t) && Restorable(c) && c.routeId in t.routes && c.workerService == t.routes[c.routeId]
    requires c.fencingToken == CountOn(t.claims, c.routeId) + 1
    requires forall j | 0 <= j < |t.claims| :: t.claims[j].id != c.id
    requires AllSuperseded(t.claims, c.routeId)
    ensures Invariant(t.(claims := t.claims + [c]))
  {
    var claims', n := t.claims + [c], |t.claims|;
    forall j | 0 <= j < |claims'|
      ensures claims'[j].fencingToken == CountOn(claims'[..j], claims'[j].routeId) + 1
    {
      if j < n { assert claims'[..j] == t.claims[..j]; } else { assert claims'[..n] == t.claims; }
    }
  }

  lemma EarlierRowsSuperseded(claims: seq<WorkClaim>, i: nat)
    requires OnlyNewestHeld(claims) && i < |claims| && LastOn(claims, claims[i].routeId, i)
    ensures forall j | 0 <= j < |claims| && claims[j].routeId == claims[i].routeId && j != i :: Superseded(claims[j])
  {
  }

  predicate AllSuperseded(claims: seq<WorkClaim>, route: Uuid) {
    forall j | 0 <= j < |claims| && claims[j].routeId == route :: Superseded(claims[j])
  }

  lemma LapsedRowExpires(t: Table, i: nat)
    requires Invariant(t) && i < |t.claims| && LastOn(t.claims, t.claims[i].routeId, i) && t.claims[i].status.Active?
    ensures var rows := Update(t.claims, t.claims[i].(status := Expired));
            Invariant(t.(claims := rows)) && SameButOn(t.claims, rows, t.claims[i].routeId) &&
            AllSuperseded(rows, t.claims[i].routeId)
  {
    var expired := t.claims[i].(status := Expired);
    EarlierRowsSuperseded(t.claims, i);
    UpdateIsAtOneRow(t.claims, i, expired);
    assert Restorable(t.claims[i]);
    WriteKeepsInvariant(t, i, expired);
    hide Invariant, Update;
  }

  /** The table just before a granted claim is inserted: the lapsed row, if any, marked expired. */
  lemma SupersedeKeepsInvariant(t: Table, route: Uuid)
    requires Invariant(t)
    requires Latest(t.claims, route).Some? ==> !Latest(t.claims, route).value.status.Completed?
    ensures Supersede(t.claims, Latest(t.claims, route)).Some?
    ensures var rows := Supersede(t.claims, Latest(t.claims, route)).value;
            Invariant(t.(claims := rows)) && SameButOn(t.claims, rows, route) && AllSuperseded(rows, route)
  {
    var latest := Latest(t.claims, route);
    var i := LatestIsLastRow(t.claims, route);
    if latest.Some? {
      EarlierRowsSuperseded(t.claims, i);
      if latest.value.status.Active? { LapsedRowExpires(t, i); }
    }
    hide Numbered, OnlyNewestHeld, RowsSound, DistinctIds, Latest, Update;
    assert t.(claims := t.claims) == t;
  }

  /** The same rows, changed at most on one route, and there not in identity. */
  predicate SameButOn(a: seq<WorkClaim>, b: seq<WorkClaim>, route: Uuid) {
    |a| == |b| && forall j | 0 <= j < |a| ::
      b[j].id == a[j].id && b[j].routeId == a[j].routeId && (a[j].routeId != route ==> b[j] == a[j])
  }

  /** Why a claim is answered as it is. */
  predicate Claimable(t: Table, route: Uuid, now: i64) {
    var latest := Latest(t.claims, route);
    latest.None? || (!IsCurrent(latest.value, now) && !latest.value.status.Completed?)
  }

  predicate IdUsed(t: Table, id: Uuid) { exists i | 0 <= i < |t.claims| :: t.claims[i].id == id }

  /**
   A claim is granted exactly when the arguments are sane, the caller is the route's destination, no claim
   on the route is current or completed, and the new ID is new. It then gets the next token.
   */
  lemma ClaimGrantedExactly(t: Table, op: Op)
    requires Invariant(t) && op.ClaimOp?
    ensures var (t', answer) := Apply(t, op);
            (answer.Ok? <==> 0 <= op.now < op.lease && op.route in t.routes && t.routes[op.route] == op.service &&
                             Claimable(t, op.route, op.now) && !IdUsed(t, op.freshId)) &&
            (answer.Ok? ==>
               answer.value == NextClaim(t, op) &&
               |t'.claims| == |t.claims| + 1 && t'.claims[|t.claims|] == answer.value &&
               SameButOn(t.claims, t'.claims[..|t.claims|], op.route)) &&
            (answer.Err? ==> t' == t) && t'.routes == t.routes && Invariant(t')
  {
    if 0 <= op.now < op.lease && op.route in t.routes && t.routes[op.route] == op.service && Claimable(t, op.route, op.now) {
      InsertGrantsClaim(t, op);
    }
  }

  /** Tokens on a route never exceed the number of its rows. */
  lemma TokenWithinCount(claims: seq<WorkClaim>, j: nat)
    requires Numbered(claims) && j < |claims|
    ensures 1 <= claims[j].fencingToken <= CountOn(claims, claims[j].routeId)
  {
    assert claims[..j + 1][..j] == claims[..j] && claims[..|claims|] == claims;
    CountGrows(claims, j + 1, |claims|, claims[j].routeId);
  }

  /** The unique indexes refuse the new row only if its ID is taken. */
  lemma OnlyTheIdCanClash(claims: seq<WorkClaim>, c: WorkClaim)
    requires Numbered(claims) && c.fencingToken == CountOn(claims, c.routeId) + 1
    requires AllSuperseded(claims, c.routeId)
    ensures InsertPermitted(claims, c) <==> forall j | 0 <= j < |claims| :: claims[j].id != c.id
  {
    forall j | 0 <= j < |claims| && claims[j].routeId == c.routeId
      ensures claims[j].fencingToken != c.fencingToken && !claims[j].status.Active?
    {
      TokenWithinCount(claims, j);
    }
  }

  function NextClaim(t: Table, op: Op): WorkClaim
    requires op.ClaimOp?
  {
    WorkClaim(op.freshId, op.route, op.service, op.worker, CountOn(t.claims, op.route) + 1, Active, op.now, op.lease)
  }

  lemma ClaimWrites(t: Table, op: Op)
    requires Invariant(t) && op.ClaimOp? && 0 <= op.now < op.lease
    requires op.route in t.routes && t.routes[op.route] == op.service && Claimable(t, op.route, op.now)
    requires Supersede(t.claims, Latest(t.claims, op.route)).Some?
    ensures var rows := Supersede(t.claims, Latest(t.claims, op.route)).value;
            Apply(t, op) == if InsertPermitted(rows, NextClaim(t, op))
                            then (t.(claims := rows + [NextClaim(t, op)]), Ok(NextClaim(t, op)))
                            else (t, Err(Repository))
  {
    hide InsertPermitted, Supersede, OnlyNewestHeld, RowsSound, DistinctIds;
    var i := LatestIsLastRow(t.claims, op.route);
    hide Numbered;
  }

  lemma InsertGrantsClaim(t: Table, op: Op)
    requires Invariant(t) && op.ClaimOp? && 0 <= op.now < op.lease
    requires op.route in t.routes && t.routes[op.route] == op.service && Claimable(t, op.route, op.now)
    ensures var (t', answer) := Apply(t, op);
            (answer.Ok? <==> !IdUsed(t, op.freshId)) && (answer.Err? ==> t' == t) &&
            (answer.Ok? ==> answer.value == NextClaim(t, op) && t'.routes == t.routes && Invariant(t') &&
                            |t'.claims| == |t.claims| + 1 && t'.claims[|t.claims|] == answer.value &&
                            SameButOn(t.claims, t'.claims[..|t.claims|], op.route))
  {
    SupersedeKeepsInvariant(t, op.route);
    ClaimWrites(t, op);
    var rows, claim := Supersede(t.claims, Latest(t.claims, op.route)).value, NextClaim(t, op);
    CountIgnoresStatus(rows, t.claims, op.route);
    OnlyTheIdCanClash(rows, claim);
    hide Apply, Numbered, OnlyNewestHeld, DistinctIds, Supersede, Latest, InsertPermitted, Superseded, Claimable;
    assert (forall j | 0 <= j < |rows| :: rows[j].id != claim.id) <==> !IdUsed(t, op.freshId);
    if !IdUsed(t, op.freshId) {
      AppendKeepsInvariant(t.(claims := rows), claim);
      assert (rows + [claim])[..|rows|] == rows;
    }
  }

  predicate GuardPasses(op: Op) {
    match op
    case ClaimOp(_, _, _, lease, now, _) => 0 <= now < lease
    case RenewOp(_, _, lease, now) => 0 <= now < lease
    case ReleaseOp(_, _, now) => 0 <= now
    case CompleteOp(_, _, now) => 0 <= now
  }

  /** The row a holder's operation writes when it succeeds. */
  function Written(c: WorkClaim, op: Op): WorkClaim
    requires !op.ClaimOp?
  {
    match op
    case RenewOp(_, _, lease, _) => c.(leaseExpiresAt := lease)
    case ReleaseOp(_, _, _) => c.(status := Released)
    case CompleteOp(_, _, _) => c.(status := Completed)
  }

  predicate NamesRow(t: Table, op: Op, i: int)
    requires !op.ClaimOp?
  {
    0 <= i < |t.claims| && t.claims[i].id == op.id
  }

  /**
   What a holder's operation answers, exactly. The database itself refuses only a renewal that would not
   extend the lease.
   */
  lemma HolderAnsweredExactly(t: Table, op: Op, i: int)
    requires Invariant(t) && !op.ClaimOp? && NamesRow(t, op, i)
    ensures var c := t.claims[i];
            Apply(t, op) ==
            if !GuardPasses(op) then (t, Err(InvalidLease))
            else if op.token != c.fencingToken || !IsCurrent(c, op.now) then (t, Err(Fenced))
            else if op.RenewOp? && op.lease <= c.leaseExpiresAt then (t, Err(Repository))
            else (t.(claims := t.claims[i := Written(c, op)]), Ok(Written(c, op)))
    ensures Invariant(Apply(t, op).0)
  {
    var j := FindGivesRow(t.claims, op.id);
    assert j == i;
    var c, w := t.claims[i], Written(t.claims[i], op);
    UpdateIsAtOneRow(t.claims, i, w);
    assert Find(t.claims, op.id) == Some(c);
    if GuardPasses(op) && op.token == c.fencingToken && IsCurrent(c, op.now) && UpdatePermitted(c, w) {
      assert Restorable(c);
      WriteKeepsInvariant(t, i, w);
    }
  }

  lemma UnknownClaimIsNotFound(t: Table, op: Op)
    requires !op.ClaimOp? && !IdUsed(t, op.id)
    ensures Apply(t, op) == (t, Err(if GuardPasses(op) then NotFound else InvalidLease))
  {
    var j := FindGivesRow(t.claims, op.id);
  }

  lemma StepKeepsInvariant(t: Table, e: Event)
    requires Invariant(t)
    ensures Invariant(After(t, e))
  {
    if e.Called? {
      if e.op.ClaimOp? {
        ClaimGrantedExactly(t, e.op);
      } else if IdUsed(t, e.op.id) {
        var i :| 0 <= i < |t.claims| && t.claims[i].id == e.op.id;
        HolderAnsweredExactly(t, e.op, i);
      } else {
        UnknownClaimIsNotFound(t, e.op);
      }
    }
  }

  lemma {:induction false} RunKeepsInvariant(t: Table, events: seq<Event>)
    requires Invariant(t)
    ensures Invariant(RunFrom(t, events))
  {
    if events != [] {
      RunKeepsInvariant(t, events[..|events| - 1]);
      StepKeepsInvariant(RunFrom(t, events[..|events| - 1]), events[|events| - 1]);
    }
  }

  /** Every table any run can reach, with clocks moving either way. */
  lemma ReachableTablesAreSound(events: seq<Event>)
    ensures Invariant(RunFrom(EMPTY, events))
  {
    RunKeepsInvariant(EMPTY, events);
  }

  // ---- What the invariant says about a route ----

  lemma {:induction false} TokenIsTaken(claims: seq<WorkClaim>, route: Uuid, token: int) returns (i: int)
    requires Numbered(claims) && 1 <= token <= CountOn(claims, route)
    ensures 0 <= i < |claims| && claims[i].routeId == route && claims[i].fencingToken == token
  {
    var n := |claims| - 1;
    NumberedFront(claims);
    if token <= CountOn(claims[..n], route) {
      i := TokenIsTaken(claims[..n], route, token);
    } else {
      i := n;
      assert claims[n].fencingToken == CountOn(claims[..n], claims[n].routeId) + 1;
    }
  }

  lemma TokensIncrease(claims: seq<WorkClaim>, i: nat, j: nat)
    requires Numbered(claims) && i < j < |claims| && claims[i].routeId == claims[j].routeId
    ensures claims[i].fencingToken < claims[j].fencingToken
  {
    CountGrows(claims, i, j, claims[i].routeId);
  }

  predicate HasToken(claims: seq<WorkClaim>, route: Uuid, token: int) {
    exists i | 0 <= i < |claims| :: claims[i].routeId == route && claims[i].fencingToken == token
  }

  /** On every route of a reachable table the tokens are exactly 1 to n, each used once, in order of claiming. */
  lemma TokensAreConsecutive(events: seq<Event>, route: Uuid)
    ensures var claims := RunFrom(EMPTY, events).claims;
            (forall token | 1 <= token <= CountOn(claims, route) :: HasToken(claims, route, token)) &&
            (forall i | 0 <= i < |claims| && claims[i].routeId == route ::
               1 <= claims[i].fencingToken <= CountOn(claims, route)) &&
            (forall i, j | 0 <= i < j < |claims| && claims[i].routeId == route && claims[j].routeId == route ::
               claims[i].fencingToken < claims[j].fencingToken)
  {
    ReachableTablesAreSound(events);
    var claims := RunFrom(EMPTY, events).claims;
    forall token | 1 <= token <= CountOn(claims, route)
      ensures HasToken(claims, route, token)
    {
      var i := TokenIsTaken(claims, route, token);
    }
    forall i | 0 <= i < |claims| && claims[i].routeId == route
      ensures 1 <= claims[i].fencingToken <= CountOn(claims, route)
    {
      TokenWithinCount(claims, i);
    }
    forall i, j | 0 <= i < j < |claims| && claims[i].routeId == route && claims[j].routeId == route
      ensures claims[i].fencingToken < claims[j].fencingToken
    {
      TokensIncrease(claims, i, j);
    }
  }

  /** Two claims on one route are never both current, even judged by different clocks. */
  lemma AtMostOneCurrent(events: seq<Event>, i: nat, j: nat, now: i64, later: i64)
    requires var claims := RunFrom(EMPTY, events).claims;
             i < |claims| && j < |claims| && claims[i].routeId == claims[j].routeId &&
             IsCurrent(claims[i], now) && IsCurrent(claims[j], later)
    ensures i == j
  {
    ReachableTablesAreSound(events);
  }

  // ---- Rows over a run ----

  /** A row only moves forward: its identity is fixed, and once not active it never changes again. */
  predicate Advanced(a: WorkClaim, b: WorkClaim) {
    b == a.(status := b.status, leaseExpiresAt := b.leaseExpiresAt) &&
    (!a.status.Active? ==> b == a) && b.leaseExpiresAt >= a.leaseExpiresAt
  }

  predicate AllAdvanced(a: seq<WorkClaim>, b: seq<WorkClaim>) {
    |a| <= |b| && forall i | 0 <= i < |a| :: Advanced(a[i], b[i])
  }

  lemma SupersedeAdvances(t: Table, route: Uuid)
    requires Invariant(t) && Supersede(t.claims, Latest(t.claims, route)).Some?
    ensures AllAdvanced(t.claims, Supersede(t.claims, Latest(t.claims, route)).value)
  {
    var latest := Latest(t.claims, route);
    var i := LatestIsLastRow(t.claims, route);
    if latest.Some? && latest.value.status.Active? {
      UpdateIsAtOneRow(t.claims, i, latest.value.(status := Expired));
    }
  }

  lemma ClaimAdvances(t: Table, op: Op)
    requires Invariant(t) && op.ClaimOp?
    ensures AllAdvanced(t.claims, Apply(t, op).0.claims)
  {
    ClaimGrantedExactly(t, op);
    if Apply(t, op).1.Ok? {
      SupersedeKeepsInvariant(t, op.route);
      ClaimWrites(t, op);
      SupersedeAdvances(t, op.route);
      hide Apply, Invariant, Supersede, Latest, Claimable, Advanced;
    }
  }

  lemma HolderAdvances(t: Table, op: Op)
    requires Invariant(t) && !op.ClaimOp?
    ensures AllAdvanced(t.claims, Apply(t, op).0.claims)
  {
    hide DistinctIds, Numbered, OnlyNewestHeld, RowsSound, Apply;
    if IdUsed(t, op.id) {
      var i :| 0 <= i < |t.claims| && t.claims[i].id == op.id;
      HolderAnsweredExactly(t, op, i);
      hide Invariant, IdUsed;
      assert Advanced(t.claims[i], Written(t.claims[i], op)) || Apply(t, op).0 == t;
    } else {
      UnknownClaimIsNotFound(t, op);
      hide Invariant;
    }
  }

  lemma StepAdvances(t: Table, e: Event)
    requires Invariant(t)
    ensures AllAdvanced(t.claims, After(t, e).claims)
  {
    hide Apply, Invariant;
    if e.Called? {
      if e.op.ClaimOp? { ClaimAdvances(t, e.op); } else { HolderAdvances(t, e.op); }
    }
  }

  lemma {:induction false} RunAdvances(t: Table, events: seq<Event>)
    requires Invariant(t)
    ensures AllAdvanced(t.claims, RunFrom(t, events).claims)
  {
    if events != [] {
      var front := events[..|events| - 1];
      RunAdvances(t, front);
      RunKeepsInvariant(t, front);
      StepAdvances(RunFrom(t, front), events[|events| - 1]);
    }
  }

  // ---- Fencing ----

  /** Once a claim is no longer active, whatever happens next, every operation of its holder is fenced. */
  lemma LostClaimStaysFenced(t: Table, i: nat, events: seq<Event>, op: Op)
    requires Invariant(t) && i < |t.claims| && !t.claims[i].status.Active?
    requires !op.ClaimOp? && op.id == t.claims[i].id && GuardPasses(op)
    ensures var u := RunFrom(t, events); Apply(u, op) == (u, Err(Fenced))
  {
    var u := RunFrom(t, events);
    RunKeepsInvariant(t, events);
    RunAdvances(t, events);
    assert Advanced(t.claims[i], u.claims[i]);
    HolderAnsweredExactly(u, op, i);
  }

  /** A grant fences every earlier claim on its route, for good. */
  lemma GrantFencesEarlierClaims(t: Table, grant: Op, i: nat, events: seq<Event>, op: Op)
    requires Invariant(t) && grant.ClaimOp? && Apply(t, grant).1.Ok?
    requires i < |t.claims| && t.claims[i].routeId == grant.route
    requires !op.ClaimOp? && op.id == t.claims[i].id && GuardPasses(op)
    ensures var u := RunFrom(Apply(t, grant).0, events); Apply(u, op) == (u, Err(Fenced))
  {
    ClaimGrantedExactly(t, grant);
    var t' := Apply(t, grant).0;
    assert t'.claims[..|t.claims|][i] == t'.claims[i];
    assert t'.claims[i].routeId == t'.claims[|t.claims|].routeId;
    assert Superseded(t'.claims[i]);
    LostClaimStaysFenced(t', i, events, op);
  }

  /** A completed route is never claimed again. */
  lemma CompletedRouteStaysCompleted(t: Table, i: nat, events: seq<Event>, op: Op)
    requires Invariant(t) && i < |t.claims| && t.claims[i].status.Completed?
    requires op.ClaimOp? && op.route == t.claims[i].routeId && GuardPasses(op)
    ensures var u := RunFrom(t, events);
            op.route in u.routes &&
            Apply(u, op) == (u, Err(if u.routes[op.route] == op.service then AlreadyCompleted else RouteNotFound))
  {
    var u := RunFrom(t, events);
    RunKeepsInvariant(t, events);
    RunAdvances(t, events);
    assert Advanced(t.claims[i], u.claims[i]);
    var j := LatestIsLastRow(u.claims, op.route);
    assert j == i;
  }

  lemma CompletionMarksRow(t: Table, op: Op) returns (i: int)
    requires Invariant(t) && op.CompleteOp? && Apply(t, op).1.Ok?
    ensures 0 <= i < |t.claims| && t.claims[i].status.Active? && Apply(t, op).1.value.routeId == t.claims[i].routeId
    ensures Apply(t, op).0.claims == t.claims[i := t.claims[i].(status := Completed)] && Invariant(Apply(t, op).0)
  {
    i := FindGivesRow(t.claims, op.id);
    HolderAnsweredExactly(t, op, i);
  }

  lemma CompletedIsNotHeld(t: Table, i: nat, j: nat)
    requires Invariant(t) && i < |t.claims| && j < |t.claims|
    requires t.claims[i].status.Completed? && t.claims[j].status.Active?
    ensures t.claims[i].routeId != t.claims[j].routeId
  {
  }

  /** No route is completed twice. */
  lemma CompletesOnce(t: Table, first: Op, events: seq<Event>, second: Op)
    requires Invariant(t) && first.CompleteOp? && second.CompleteOp?
    requires Apply(t, first).1.Ok? && Apply(RunFrom(Apply(t, first).0, events), second).1.Ok?
    ensures Apply(t, first).1.value.routeId != Apply(RunFrom(Apply(t, first).0, events), second).1.value.routeId
  {
    var i := CompletionMarksRow(t, first);
    var t' := Apply(t, first).0;
    var u := RunFrom(t', events);
    RunKeepsInvariant(t', events);
    RunAdvances(t', events);
    assert Advanced(t'.claims[i], u.claims[i]);
    var j := CompletionMarksRow(u, second);
    CompletedIsNotHeld(u, i, j);
    hide *;
  }

  // ---- What a run leaves ----

  /** The i-th event adds the route, and none before it did. */
  ghost predicate FirstAdds(events: seq<Event>, i: nat, route: Uuid, destination: Uuid) {
    i < |events| && events[i] == RouteAdded(route, destination) &&
    forall j | 0 <= j < i :: !(events[j].RouteAdded? && events[j].route == route)
  }

  /** The routes there are at the end of a run are those it added, each with the destination it was first added with. */
  lemma {:induction false} RoutesAreThoseAdded(events: seq<Event>, route: Uuid, destination: Uuid)
    ensures var routes := RunFrom(EMPTY, events).routes;
            route in routes && routes[route] == destination <==> exists i: nat :: FirstAdds(events, i, route, destination)
    ensures route in RunFrom(EMPTY, events).routes <==>
            exists i | 0 <= i < |events| :: events[i].RouteAdded? && events[i].route == route
  {
    if events != [] {
      var n := |events| - 1;
      var front := events[..n];
      RoutesAreThoseAdded(front, route, destination);
      assert forall i | 0 <= i < n :: front[i] == events[i];
      forall i: nat ensures FirstAdds(front, i, route, destination) ==> FirstAdds(events, i, route, destination) {}
      forall i: nat | i < n ensures FirstAdds(events, i, route, destination) ==> FirstAdds(front, i, route, destination) {}
      CallKeepsRoutes(RunFrom(EMPTY, front), events[n]);
      if events[n] == RouteAdded(route, destination) && route !in RunFrom(EMPTY, front).routes {
        assert FirstAdds(events, n, route, destination);
      }
    }
  }

  lemma CallKeepsRoutes(t: Table, e: Event)
    ensures e.Called? ==> After(t, e).routes == t.routes
  {
  }

  /** The claims on the route that were granted during the run. */
  ghost function Granted(events: seq<Event>, route: Uuid): nat {
    if events == [] then 0
    else
      var front, e := events[..|events| - 1], events[|events| - 1];
      Granted(front, route) +
      (if e.Called? && e.op.ClaimOp? && e.op.route == route && Apply(RunFrom(EMPTY, front), e.op).1.Ok? then 1 else 0)
  }

  /** A route has one row for each claim granted on it: the other operations neither add rows nor lose any. */
  lemma {:induction false} RowsAreTheGrants(events: seq<Event>, route: Uuid)
    ensures CountOn(RunFrom(EMPTY, events).claims, route) == Granted(events, route)
  {
    if events != [] {
      var front, e := events[..|events| - 1], events[|events| - 1];
      RowsAreTheGrants(front, route);
      ReachableTablesAreSound(front);
      hide Apply, Invariant;
      if e.Called? { CallCounts(RunFrom(EMPTY, front), e.op, route); }
    }
  }

  lemma CallCounts(t: Table, op: Op, route: Uuid)
    requires Invariant(t)
    ensures CountOn(Apply(t, op).0.claims, route) ==
            CountOn(t.claims, route) + (if op.ClaimOp? && op.route == route && Apply(t, op).1.Ok? then 1 else 0)
  {
    hide Apply, Invariant;
    var after := Apply(t, op).0.claims;
    if op.ClaimOp? {
      ClaimGrantedExactly(t, op);
      if Apply(t, op).1.Ok? { CountIgnoresStatus(t.claims, after[..|t.claims|], route); }
    } else if IdUsed(t, op.id) {
      var i :| 0 <= i < |t.claims| && t.claims[i].id == op.id;
      HolderAnsweredExactly(t, op, i);
      CountIgnoresStatus(t.claims, after, route);
    } else {
      UnknownClaimIsNotFound(t, op);
    }
  }
}
