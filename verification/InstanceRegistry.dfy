/** Leases on registered instances: renewed by compare-and-set on a revision, ended for good by revocation. */
module InstanceRegistry {
  import opened Foundations
  import opened Instances

  const MAX_LEASE_SECONDS: i64 := 300

  datatype KeyRow = KeyRow(instanceId: Uuid, fingerprint: Bytes, validFrom: i64, revokedAt: Option<i64>)
  datatype Action = Registered | Renewed | RevokedAction
  datatype AuditRow = AuditRow(instanceId: Uuid, action: Action, leaseRevision: i64, recordedAt: i64)
  /** An instance row is held as `find` reads it, joined with its key. */
  datatype Tables = Tables(instances: map<Uuid, RegisteredInstance>, keys: map<Uuid, KeyRow>, audit: seq<AuditRow>)

  datatype RegistryError =
    | AlreadyExists | Expired | InvalidStoredRecord | InvalidTimestamp
    | NotFound | RevisionConflict | Revoked | UnknownService
    | RevisionOutOfRange | RenewalNotApplied | KeyRowsChanged

  const EMPTY := Tables(map[], map[], [])

  /** The seconds a policy grants. */
  type Policy = seconds: i64 | 1 <= seconds <= MAX_LEASE_SECONDS witness 60

  predicate ValidRecord(i: RegisteredInstance) {
    i.registeredAt >= 0 && i.leaseExpiresAt > i.registeredAt && i.leaseRevision > 0 &&
    (i.revokedAt.Some? ==> i.revokedAt.value >= i.registeredAt)
  }

  /** The row an `UPDATE ... WHERE` of a renewal finds. */
  predicate Renewable(t: Tables, id: Uuid, expected: i64, at: i64) {
    id in t.instances && t.instances[id].leaseRevision == expected && EligibleAt(t.instances[id], at)
  }

  function Classify(t: Tables, id: Uuid, expected: i64, at: i64): RegistryError {
    if id !in t.instances then NotFound
    else if t.instances[id].revokedAt.Some? then Revoked
    else if t.instances[id].registeredAt > at then InvalidTimestamp
    else if t.instances[id].leaseExpiresAt <= at then Expired
    else if t.instances[id].leaseRevision != expected then RevisionConflict
    else RenewalNotApplied
  }

  // ---- The operations ----

  /** `known` says whether the service is an identity. */
  function Register(t: Tables, key: PublicKey, endpoint: string, fingerprint: Bytes, known: bool, policy: Policy, now: i64)
    : (Tables, Result<RegisteredInstance, RegistryError>)
  {
    if now < 0 || CheckedAdd(now, policy).None? then (t, Err(InvalidTimestamp))
    else if key.instanceId in t.instances then (t, Err(AlreadyExists))
    else if !known then (t, Err(UnknownService))
    else if key.keyId in t.keys || FingerprintTaken(t, fingerprint) then (t, Err(AlreadyExists))
    else
      var i := RegisteredInstance(key, endpoint, now, now + policy, 1, None);
      (Tables(t.instances[key.instanceId := i], t.keys[key.keyId := KeyRow(key.instanceId, fingerprint, now, None)],
              t.audit + [AuditRow(key.instanceId, Registered, 1, now)]), Ok(i))
  }

  predicate FingerprintTaken(t: Tables, fingerprint: Bytes) {
    exists k | k in t.keys :: t.keys[k].fingerprint == fingerprint
  }

  function Renew(t: Tables, id: Uuid, expected: i64, policy: Policy, now: i64): (Tables, Result<RegisteredInstance, RegistryError>) {
    if now < 0 then (t, Err(InvalidTimestamp))
    else if expected <= 0 then (t, Err(RevisionConflict))
    else if CheckedAdd(now, policy).None? then (t, Err(InvalidTimestamp))
    else if !Renewable(t, id, expected, now) then (t, Err(Classify(t, id, expected, now)))
    else if expected == MAX_I64 then (t, Err(RevisionOutOfRange))
    else
      var i := t.instances[id].(leaseExpiresAt := now + policy, leaseRevision := expected + 1);
      (t.(instances := t.instances[id := i], audit := t.audit + [AuditRow(id, Renewed, expected + 1, now)]), Ok(i))
  }

  function RevokeKeys(keys: map<Uuid, KeyRow>, id: Uuid, at: i64): map<Uuid, KeyRow> {
    map k | k in keys ::
      if keys[k].instanceId == id && keys[k].revokedAt.None? then keys[k].(revokedAt := Some(at)) else keys[k]
  }

  function Revoke(t: Tables, id: Uuid, now: i64): (Tables, Result<RegisteredInstance, RegistryError>) {
    if now < 0 then (t, Err(InvalidTimestamp))
    else if id !in t.instances then (t, Err(NotFound))
    else if t.instances[id].registeredAt > now then (t, Err(InvalidTimestamp))
    else if t.instances[id].revokedAt.Some? then (t, Err(Revoked))
    else
      var i := t.instances[id].(revokedAt := Some(now));
      (Tables(t.instances[id := i], RevokeKeys(t.keys, id, now),
              t.audit + [AuditRow(id, RevokedAction, i.leaseRevision, now)]), Ok(i))
  }

  function FindEligible(t: Tables, id: Uuid, now: i64): Result<RegisteredInstance, RegistryError> {
    if now < 0 then Err(InvalidTimestamp)
    else if id !in t.instances then Err(NotFound)
    else if t.instances[id].revokedAt.Some? then Err(Revoked)
    else if !EligibleAt(t.instances[id], now) then Err(Expired)
    else Ok(t.instances[id])
  }

  // ---- What every reachable state satisfies ----

  function Renewals(audit: seq<AuditRow>, id: Uuid): nat {
    if audit == [] then 0
    else
      var last := audit[|audit| - 1];
      Renewals(audit[..|audit| - 1], id) + (if last.instanceId == id && last.action.Renewed? then 1 else 0)
  }

  /** When the lease in force was granted. */
  function LeasedAt(audit: seq<AuditRow>, id: Uuid): Option<i64> {
    if audit == [] then None
    else
      var last := audit[|audit| - 1];
      if last.instanceId == id && !last.action.RevokedAction? then Some(last.recordedAt)
      else LeasedAt(audit[..|audit| - 1], id)
  }

  /** The row's own key is stored, and lives as long as the row. */
  predicate HasKey(t: Tables, id: Uuid)
    requires id in t.instances
  {
    var i := t.instances[id];
    var k := i.publicKey.keyId;
    i.publicKey.instanceId == id && k in t.keys && t.keys[k].instanceId == id &&
    t.keys[k].revokedAt == i.revokedAt && t.keys[k].validFrom == i.registeredAt
  }

  ghost predicate SoundLease(i: RegisteredInstance, audit: seq<AuditRow>, policy: Policy, id: Uuid) {
    ValidRecord(i) && i.leaseRevision == 1 + Renewals(audit, id) &&
    LeasedAt(audit, id).Some? && i.leaseExpiresAt == LeasedAt(audit, id).value + policy &&
    LeasedAt(audit, id).value >= i.registeredAt
  }

  ghost predicate SoundRow(t: Tables, policy: Policy, id: Uuid)
    requires id in t.instances
  {
    SoundLease(t.instances[id], t.audit, policy, id) && HasKey(t, id)
  }

  ghost predicate Sound(t: Tables, policy: Policy) {
    (forall id | id in t.instances :: SoundRow(t, policy, id)) &&
    (forall k | k in t.keys :: t.keys[k].instanceId in t.instances) &&
    (forall k, l | k in t.keys && l in t.keys && t.keys[k].instanceId == t.keys[l].instanceId :: k == l) &&
    (forall a | a in t.audit :: a.instanceId in t.instances)
  }

  lemma OnlyKey(t: Tables, policy: Policy, id: Uuid)
    requires Sound(t, policy) && id in t.instances && t.instances[id].revokedAt.None?
    ensures (set k | k in t.keys && t.keys[k].instanceId == id && t.keys[k].revokedAt.None?) ==
            {t.instances[id].publicKey.keyId}
  {
    assert SoundRow(t, policy, id);
  }

  // ---- The repository ----

  class InstanceRegistryRepository {
    var instances: map<Uuid, RegisteredInstance>
    var keys: map<Uuid, KeyRow>
    var audit: seq<AuditRow>

    constructor ()
      ensures Contents() == EMPTY
    {
      instances, keys, audit := map[], map[], [];
    }

    function Contents(): Tables
      reads this
    {
      Tables(instances, keys, audit)
    }

    method Insert(i: RegisteredInstance, fingerprint: Bytes, known: bool) returns (error: Option<RegistryError>)
      modifies this
      ensures error.Some? ==> Contents() == old(Contents())
      ensures error == if i.publicKey.instanceId in old(instances) then Some(AlreadyExists)
                       else if !known then Some(UnknownService)
                       else if i.publicKey.keyId in old(keys) || FingerprintTaken(old(Contents()), fingerprint)
                         then Some(AlreadyExists)
                       else None
      ensures error.None? ==>
                (var id := i.publicKey.instanceId;
                 Contents() == Tables(old(instances)[id := i],
                                      old(keys)[i.publicKey.keyId := KeyRow(id, fingerprint, i.registeredAt, None)],
                                      old(audit) + [AuditRow(id, Registered, i.leaseRevision, i.registeredAt)]))
    {
      var id, keyId := i.publicKey.instanceId, i.publicKey.keyId;
      if id in instances { return Some(AlreadyExists); }
      if !known { return Some(UnknownService); }
      if keyId in keys || FingerprintTaken(Contents(), fingerprint) { return Some(AlreadyExists); }
      instances := instances[id := i];
      keys := keys[keyId := KeyRow(id, fingerprint, i.registeredAt, None)];
      audit := audit + [AuditRow(id, Registered, i.leaseRevision, i.registeredAt)];
      return None;
    }

    method RegisterVerified(key: PublicKey, endpoint: string, fingerprint: Bytes, known: bool, policy: Policy, now: i64)
      returns (r: Result<RegisteredInstance, RegistryError>)
      modifies this
      ensures (Contents(), r) == Register(old(Contents()), key, endpoint, fingerprint, known, policy, now)
    {
      if now < 0 { return Err(InvalidTimestamp); }
      var expiresAt := CheckedAdd(now, policy);
      if expiresAt.None? { return Err(InvalidTimestamp); }
      var i := RegisteredInstance(key, endpoint, now, expiresAt.value, 1, None);
      if !ValidRecord(i) { return Err(InvalidStoredRecord); }
      var error := Insert(i, fingerprint, known);
      return if error.Some? then Err(error.value) else Ok(i);
    }

    method ClassifyFailedRenewal(id: Uuid, expected: i64, at: i64) returns (error: RegistryError)
      ensures error == Classify(Contents(), id, expected, at)
    {
      if id !in instances { return NotFound; }
      var row := instances[id];
      if row.revokedAt.Some? { return Revoked; }
      if row.registeredAt > at { return InvalidTimestamp; }
      if row.leaseExpiresAt <= at { return Expired; }
      if row.leaseRevision != expected { return RevisionConflict; }
      return RenewalNotApplied;
    }

    method RenewLease(id: Uuid, expected: i64, policy: Policy, now: i64) returns (r: Result<RegisteredInstance, RegistryError>)
      requires Sound(Contents(), policy)
      modifies this
      ensures (Contents(), r) == Renew(old(Contents()), id, expected, policy, now)
      ensures r != Err(RenewalNotApplied) && r != Err(InvalidStoredRecord)
    {
      if now < 0 { return Err(InvalidTimestamp); }
      if expected <= 0 { return Err(RevisionConflict); }
      var expiresAt := CheckedAdd(now, policy);
      if expiresAt.None? { return Err(InvalidTimestamp); }
      if now < 0 || expiresAt.value <= now || expected <= 0 { return Err(InvalidTimestamp); }
      var matched := id in instances && instances[id].leaseRevision == expected && instances[id].leaseExpiresAt > now &&
                     instances[id].registeredAt <= now && instances[id].revokedAt.None?;
      if !matched {
        var error := ClassifyFailedRenewal(id, expected, now);
        return Err(error);
      }
      if instances[id].leaseRevision == MAX_I64 { return Err(RevisionOutOfRange); }
      var renewed := instances[id].(leaseExpiresAt := expiresAt.value, leaseRevision := instances[id].leaseRevision + 1);
      assert SoundRow(Contents(), policy, id);
      if !ValidRecord(renewed) { return Err(InvalidStoredRecord); }
      instances := instances[id := renewed];
      audit := audit + [AuditRow(id, Renewed, renewed.leaseRevision, now)];
      return Ok(renewed);
    }

    method RevokeInstance(id: Uuid, now: i64, ghost policy: Policy) returns (r: Result<RegisteredInstance, RegistryError>)
      requires Sound(Contents(), policy)
      modifies this
      ensures (Contents(), r) == Revoke(old(Contents()), id, now)
      ensures r != Err(KeyRowsChanged) && r != Err(InvalidStoredRecord)
    {
      if now < 0 { return Err(InvalidTimestamp); }
      var matched := id in instances && instances[id].registeredAt <= now && instances[id].revokedAt.None?;
      if !matched {
        if id !in instances { return Err(NotFound); }
        if instances[id].registeredAt > now { return Err(InvalidTimestamp); }
        return Err(Revoked);
      }
      hide Renewals, LeasedAt, HasKey, RevokeKeys;
      assert SoundRow(Contents(), policy, id) && ValidRecord(instances[id]);
      hide Sound, SoundRow, SoundLease;
      var keyRows := set k | k in keys && keys[k].instanceId == id && keys[k].revokedAt.None?;
      OnlyKey(Contents(), policy, id);
      assert keyRows == {instances[id].publicKey.keyId};
      if |keyRows| != 1 { return Err(KeyRowsChanged); }
      var revoked := instances[id].(revokedAt := Some(now));
      if !ValidRecord(revoked) { return Err(InvalidStoredRecord); }
      instances := instances[id := revoked];
      keys := RevokeKeys(keys, id, now);
      audit := audit + [AuditRow(id, RevokedAction, revoked.leaseRevision, now)];
      return Ok(revoked);
    }
  }

  // ---- Runs ----

  datatype Event =
    | DoRegister(key: PublicKey, endpoint: string, fingerprint: Bytes, known: bool, at: i64)
    | DoRenew(id: Uuid, expected: i64, at: i64)
    | DoRevoke(id: Uuid, at: i64)

  function Step(t: Tables, policy: Policy, e: Event): Tables {
    match e
    case DoRegister(key, endpoint, fingerprint, known, at) =>
      Register(t, key, endpoint, fingerprint, known, policy, at).0
    case DoRenew(id, expected, at) => Renew(t, id, expected, policy, at).0
    case DoRevoke(id, at) => Revoke(t, id, at).0
  }

  function Run(t: Tables, policy: Policy, events: seq<Event>): Tables {
    if events == [] then t else Step(Run(t, policy, events[..|events| - 1]), policy, events[|events| - 1])
  }

  lemma AuditAppended(audit: seq<AuditRow>, a: AuditRow, id: Uuid)
    ensures Renewals(audit + [a], id) == Renewals(audit, id) + (if a.instanceId == id && a.action.Renewed? then 1 else 0)
    ensures LeasedAt(audit + [a], id) ==
            if a.instanceId == id && !a.action.RevokedAction? then Some(a.recordedAt) else LeasedAt(audit, id)
  {
    assert (audit + [a])[..|audit|] == audit;
  }

  lemma {:induction false} NoAuditNoRenewals(audit: seq<AuditRow>, id: Uuid)
    requires forall a | a in audit :: a.instanceId != id
    ensures Renewals(audit, id) == 0
  {
    if audit != [] { NoAuditNoRenewals(audit[..|audit| - 1], id); }
  }

  lemma LeaseAfter(i: RegisteredInstance, audit: seq<AuditRow>, a: AuditRow, policy: Policy, id: Uuid, after: RegisteredInstance)
    requires SoundLease(i, audit, policy, id)
    requires a.instanceId != id ==> after == i
    requires a.instanceId == id && a.action.RevokedAction? ==> ValidRecord(after) && after == i.(revokedAt := after.revokedAt)
    requires a.instanceId == id && a.action.Renewed? ==>
               ValidRecord(after) && after.leaseRevision == i.leaseRevision + 1 && a.recordedAt >= i.registeredAt &&
               after.registeredAt == i.registeredAt && after.leaseExpiresAt == a.recordedAt + policy
    requires a.instanceId == id ==> !a.action.Registered?
    ensures SoundLease(after, audit + [a], policy, id)
  {
    AuditAppended(audit, a, id);
    hide Renewals, LeasedAt;
  }

  lemma FirstLease(audit: seq<AuditRow>, policy: Policy, id: Uuid, i: RegisteredInstance)
    requires forall a | a in audit :: a.instanceId != id
    requires ValidRecord(i) && i.leaseRevision == 1 && i.leaseExpiresAt == i.registeredAt + policy
    ensures SoundLease(i, audit + [AuditRow(id, Registered, 1, i.registeredAt)], policy, id)
  {
    NoAuditNoRenewals(audit, id);
    AuditAppended(audit, AuditRow(id, Registered, 1, i.registeredAt), id);
  }

  lemma RegisterKeepsRow(t: Tables, after: Tables, policy: Policy, e: Event, id: Uuid)
    requires Sound(t, policy) && e.DoRegister? && after == Step(t, policy, e) && after != t && id in after.instances
    ensures SoundRow(after, policy, id)
  {
    hide FingerprintTaken;
    if id == e.key.instanceId {
      FirstLease(t.audit, policy, id, after.instances[id]);
    } else {
      assert SoundRow(t, policy, id);
      hide Sound;
      LeaseAfter(t.instances[id], t.audit, AuditRow(e.key.instanceId, Registered, 1, e.at), policy, id, after.instances[id]);
    }
    hide SoundLease;
  }

  lemma RegisterKeepsSound(t: Tables, policy: Policy, e: Event)
    requires Sound(t, policy) && e.DoRegister?
    ensures Sound(Step(t, policy, e), policy)
  {
    hide FingerprintTaken, SoundRow;
    var after := Step(t, policy, e);
    if after != t {
      forall id | id in after.instances ensures SoundRow(after, policy, id) { RegisterKeepsRow(t, after, policy, e, id); }
    }
  }

  lemma RenewKeepsSound(t: Tables, policy: Policy, e: Event)
    requires Sound(t, policy) && e.DoRenew?
    ensures Sound(Step(t, policy, e), policy)
  {
    var after := Step(t, policy, e);
    if after != t {
      forall id | id in after.instances ensures SoundRow(after, policy, id) {
        assert SoundRow(t, policy, id);
        LeaseAfter(t.instances[id], t.audit, after.audit[|t.audit|], policy, id, after.instances[id]);
      }
      hide SoundRow, SoundLease;
    }
  }

  lemma RevokedKey(keys: map<Uuid, KeyRow>, id: Uuid, at: i64, k: Uuid)
    ensures k in RevokeKeys(keys, id, at) <==> k in keys
    ensures k in keys ==>
              (RevokeKeys(keys, id, at)[k] ==
               if keys[k].instanceId == id && keys[k].revokedAt.None? then keys[k].(revokedAt := Some(at)) else keys[k])
  {
  }

  lemma RevokeKeepsRow(t: Tables, policy: Policy, id: Uuid, now: i64, other: Uuid)
    requires Sound(t, policy) && Revoke(t, id, now).1.Ok? && other in t.instances
    ensures SoundRow(Revoke(t, id, now).0, policy, other)
  {
    hide RevokeKeys;
    var after := Revoke(t, id, now).0;
    assert SoundRow(t, policy, other);
    hide Sound;
    LeaseAfter(t.instances[other], t.audit, after.audit[|t.audit|], policy, other, after.instances[other]);
    RevokedKey(t.keys, id, now, t.instances[other].publicKey.keyId);
    hide SoundLease;
  }

  lemma RevokeKeepsSound(t: Tables, policy: Policy, e: Event)
    requires Sound(t, policy) && e.DoRevoke?
    ensures Sound(Step(t, policy, e), policy)
  {
    hide RevokeKeys, SoundRow, SoundLease, HasKey;
    var after := Step(t, policy, e);
    if after != t {
      forall id | id in after.instances ensures SoundRow(after, policy, id) { RevokeKeepsRow(t, policy, e.id, e.at, id); }
      forall k { RevokedKey(t.keys, e.id, e.at, k); }
    }
  }

  /** Over any run the revision counts the renewals, and the lease ends one policy after it was last granted. */
  lemma {:induction false} RunsAreSound(policy: Policy, events: seq<Event>)
    ensures Sound(Run(EMPTY, policy, events), policy)
  {
    if events != [] {
      var before, e := Run(EMPTY, policy, events[..|events| - 1]), events[|events| - 1];
      RunsAreSound(policy, events[..|events| - 1]);
      match e
      case DoRegister(_, _, _, _, _) => RegisterKeepsSound(before, policy, e);
      case DoRenew(_, _, _) => RenewKeepsSound(before, policy, e);
      case DoRevoke(_, _) => RevokeKeepsSound(before, policy, e);
    }
  }

  // ---- Compare-and-set, fencing and revocation over whole runs ----

  /** What no step undoes. */
  ghost predicate Advances(t: Tables, u: Tables, id: Uuid)
    requires id in t.instances
  {
    id in u.instances && u.instances[id].registeredAt == t.instances[id].registeredAt &&
    u.instances[id].leaseRevision >= t.instances[id].leaseRevision &&
    (u.instances[id].leaseRevision == t.instances[id].leaseRevision ==>
       u.instances[id].leaseExpiresAt == t.instances[id].leaseExpiresAt) &&
    (t.instances[id].revokedAt.Some? ==> u.instances[id] == t.instances[id])
  }

  lemma {:induction false} RunAdvances(t: Tables, policy: Policy, events: seq<Event>, id: Uuid)
    requires id in t.instances
    ensures Advances(t, Run(t, policy, events), id)
  {
    if events != [] {
      RunAdvances(t, policy, events[..|events| - 1], id);
    }
  }

  /** A renewal is granted exactly to an eligible instance whose revision the caller knows. */
  lemma RenewalGrantedExactly(t: Tables, policy: Policy, id: Uuid, expected: i64, now: i64)
    requires 0 <= now <= MAX_I64 - policy && 0 < expected < MAX_I64
    ensures Renew(t, id, expected, policy, now).1.Ok? <==>
            FindEligible(t, id, now).Ok? && FindEligible(t, id, now).value.leaseRevision == expected
    ensures Renew(t, id, expected, policy, now).1 != Err(RenewalNotApplied)
  {
  }

  /** Once an expected revision has won, it never wins again for that instance. */
  lemma RevisionWinsOnce(t: Tables, policy: Policy, id: Uuid, expected: i64, now: i64, since: seq<Event>, later: i64)
    requires Renew(t, id, expected, policy, now).1.Ok?
    ensures var u := Run(Renew(t, id, expected, policy, now).0, policy, since);
            Renew(u, id, expected, policy, later).0 == u && Renew(u, id, expected, policy, later).1.Err?
  {
    RunAdvances(Renew(t, id, expected, policy, now).0, policy, since, id);
  }

  /** After a revocation the instance stays as it was left and nothing is granted to it. */
  lemma RevocationIsTerminal(t: Tables, policy: Policy, id: Uuid, now: i64, since: seq<Event>, expected: i64, later: i64)
    requires Revoke(t, id, now).1.Ok?
    ensures var u := Run(Revoke(t, id, now).0, policy, since);
            id in u.instances && Ok(u.instances[id]) == Revoke(t, id, now).1 &&
            Renew(u, id, expected, policy, later).1.Err? && Revoke(u, id, later).1.Err? && FindEligible(u, id, later).Err? &&
            (0 <= later <= MAX_I64 - policy && expected > 0 ==> Renew(u, id, expected, policy, later).1 == Err(Revoked))
  {
    RunAdvances(Revoke(t, id, now).0, policy, since, id);
  }

  /** A renewal shortens the lease exactly when the clock has fallen back since the lease was granted. */
  lemma LeaseShrinksExactlyWhenClockFellBack(t: Tables, policy: Policy, id: Uuid, expected: i64, now: i64)
    requires Sound(t, policy) && Renew(t, id, expected, policy, now).1.Ok?
    ensures LeasedAt(t.audit, id).Some? && id in t.instances
    ensures Renew(t, id, expected, policy, now).1.value.leaseExpiresAt < t.instances[id].leaseExpiresAt <==>
            now < LeasedAt(t.audit, id).value
  {
    assert SoundRow(t, policy, id);
  }

  function TimeOf(e: Event): i64 {
    match e
    case DoRegister(_, _, _, _, at) => at
    case DoRenew(_, _, at) => at
    case DoRevoke(_, at) => at
  }

  ghost predicate Forward(events: seq<Event>) {
    forall i, j | 0 <= i < j < |events| :: TimeOf(events[i]) <= TimeOf(events[j])
  }

  /** No lease was granted after `at`. */
  ghost predicate LeasedBy(t: Tables, at: i64) {
    forall id | id in t.instances && LeasedAt(t.audit, id).Some? :: LeasedAt(t.audit, id).value <= at
  }

  lemma StepLeasesNow(t: Tables, policy: Policy, e: Event, at: i64)
    requires LeasedBy(t, at) && TimeOf(e) <= at
    ensures LeasedBy(Step(t, policy, e), at)
  {
    hide FingerprintTaken, RevokeKeys;
    var after := Step(t, policy, e);
    if after != t {
      forall id { AuditAppended(t.audit, after.audit[|t.audit|], id); }
      assert after.audit == t.audit + [after.audit[|t.audit|]];
      assert forall id | id in after.instances && id !in t.instances :: after.audit[|t.audit|].instanceId == id;
      hide LeasedAt;
    }
  }

  lemma StepKeepsLeases(t: Tables, policy: Policy, e: Event, id: Uuid)
    requires Sound(t, policy) && LeasedBy(t, TimeOf(e)) && id in t.instances
    ensures id in Step(t, policy, e).instances
    ensures t.instances[id].leaseExpiresAt <= Step(t, policy, e).instances[id].leaseExpiresAt
  {
    hide FingerprintTaken, RevokeKeys, LeasedAt, Renewals, HasKey;
    assert SoundRow(t, policy, id) && SoundLease(t.instances[id], t.audit, policy, id);
    hide Sound, SoundRow;
  }

  lemma {:induction false} ForwardRunsLeaseBy(policy: Policy, events: seq<Event>, at: i64)
    requires forall e | e in events :: TimeOf(e) <= at
    ensures LeasedBy(Run(EMPTY, policy, events), at)
  {
    if events != [] {
      var n := |events| - 1;
      ForwardRunsLeaseBy(policy, events[..n], at);
      StepLeasesNow(Run(EMPTY, policy, events[..n]), policy, events[n], at);
    }
  }

  /** While the clock does not fall back, no lease ever gets shorter. */
  lemma {:induction false} LeasesNeverShrink(policy: Policy, events: seq<Event>, k: nat, id: Uuid)
    requires Forward(events) && k <= |events| && id in Run(EMPTY, policy, events[..k]).instances
    ensures id in Run(EMPTY, policy, events).instances
    ensures Run(EMPTY, policy, events[..k]).instances[id].leaseExpiresAt <=
            Run(EMPTY, policy, events).instances[id].leaseExpiresAt
    decreases |events|
  {
    hide Sound, LeasedBy, Step;
    var n := |events| - 1;
    if k == |events| {
      assert events[..k] == events;
    } else {
      assert events[..n][..k] == events[..k];
      LeasesNeverShrink(policy, events[..n], k, id);
      RunsAreSound(policy, events[..n]);
      ForwardRunsLeaseBy(policy, events[..n], TimeOf(events[n]));
      StepKeepsLeases(Run(EMPTY, policy, events[..n]), policy, events[n], id);
    }
  }

  // ---- Every answer, from the rows ----

  /** A policy's lease lasts from one second to three hundred, and any of these may be chosen. */
  lemma LeaseLengths(policy: Policy, n: int) returns (chosen: Policy)
    requires 1 <= n <= 300
    ensures 1 <= policy <= 300 && chosen == n
  {
    chosen := n;
  }

  /** Who is registered and why not; the instance, its key and its audit row are written together or not at all. */
  lemma RegistrationAnsweredExactly(t: Tables, key: PublicKey, endpoint: string, fingerprint: Bytes, known: bool,
                                    policy: Policy, now: i64)
    ensures var (t', answer) := Register(t, key, endpoint, fingerprint, known, policy, now);
            var timely := 0 <= now <= MAX_I64 - policy;
            var unused := key.keyId !in t.keys && forall k | k in t.keys :: t.keys[k].fingerprint != fingerprint;
            (answer == Err(InvalidTimestamp) <==> !timely) &&
            (answer == Err(UnknownService) <==> timely && key.instanceId !in t.instances && !known) &&
            (answer == Err(AlreadyExists) <==> timely && (key.instanceId in t.instances || (known && !unused))) &&
            (answer.Ok? <==> timely && key.instanceId !in t.instances && known && unused) &&
            (answer.Err? ==> t' == t) &&
            (answer.Ok? ==>
               answer.value == RegisteredInstance(
                 publicKey := key, endpoint := endpoint, registeredAt := now, leaseExpiresAt := now + policy,
                 leaseRevision := 1, revokedAt := None) &&
               t'.instances == t.instances[key.instanceId := answer.value] &&
               t'.keys == t.keys[key.keyId := KeyRow(
                 instanceId := key.instanceId, fingerprint := fingerprint, validFrom := now, revokedAt := None)] &&
               t'.audit == t.audit + [AuditRow(
                 instanceId := key.instanceId, action := Registered, leaseRevision := 1, recordedAt := now)])
  {
  }

  /** Who is renewed and why not; the first reason that applies is given. */
  lemma RenewalAnsweredExactly(t: Tables, id: Uuid, expected: i64, policy: Policy, now: i64)
    ensures var (t', answer) := Renew(t, id, expected, policy, now);
            var asked := 0 <= now <= MAX_I64 - policy && 0 < expected;
            var known := asked && id in t.instances;
            var live := known && t.instances[id].revokedAt == None;
            var started := live && t.instances[id].registeredAt <= now;
            var current := started && now < t.instances[id].leaseExpiresAt;
            var named := current && t.instances[id].leaseRevision == expected;
            (answer == Err(InvalidTimestamp) <==> now < 0 || (0 < expected && now > MAX_I64 - policy) || (live && !started)) &&
            (answer == Err(NotFound) <==> asked && !known) && (answer == Err(Revoked) <==> known && !live) &&
            (answer == Err(Expired) <==> started && !current) &&
            (answer == Err(RevisionConflict) <==> (0 <= now && expected <= 0) || (current && !named)) &&
            (answer == Err(RevisionOutOfRange) <==> named && expected == MAX_I64) &&
            (answer.Ok? <==> named && expected < MAX_I64) && (answer.Err? ==> t' == t) &&
            (answer.Ok? ==>
               answer.value == t.instances[id].(leaseExpiresAt := now + policy, leaseRevision := expected + 1) &&
               t'.instances == t.instances[id := answer.value] && t'.keys == t.keys &&
               t'.audit == t.audit + [AuditRow(
                 instanceId := id, action := Renewed, leaseRevision := expected + 1, recordedAt := now)])
  {
  }

  /** Who is revoked and why not; every key of the instance goes with it. */
  lemma RevocationAnsweredExactly(t: Tables, id: Uuid, now: i64)
    ensures var (t', answer) := Revoke(t, id, now);
            var known := 0 <= now && id in t.instances;
            var started := known && t.instances[id].registeredAt <= now;
            (answer == Err(InvalidTimestamp) <==> now < 0 || (known && !started)) &&
            (answer == Err(NotFound) <==> 0 <= now && !known) &&
            (answer == Err(Revoked) <==> started && t.instances[id].revokedAt.Some?) &&
            (answer.Ok? <==> started && t.instances[id].revokedAt.None?) && (answer.Err? ==> t' == t) &&
            (answer.Ok? ==>
               answer.value == t.instances[id].(revokedAt := Some(now)) &&
               t'.instances == t.instances[id := answer.value] && t'.keys.Keys == t.keys.Keys &&
               (forall k | k in t.keys :: t'.keys[k] == t.keys[k].(
                  revokedAt := if t.keys[k].instanceId == id && t.keys[k].revokedAt == None then Some(now)
                               else t.keys[k].revokedAt)) &&
               t'.audit == t.audit + [AuditRow(
                 instanceId := id, action := RevokedAction, leaseRevision := t.instances[id].leaseRevision, recordedAt := now)])
  {
  }

  /** Who is found eligible and why not. */
  lemma EligibilityAnsweredExactly(t: Tables, id: Uuid, now: i64)
    ensures var answer := FindEligible(t, id, now);
            var known := 0 <= now && id in t.instances;
            var live := known && t.instances[id].revokedAt == None;
            var current := live && t.instances[id].registeredAt <= now < t.instances[id].leaseExpiresAt;
            (answer == Err(InvalidTimestamp) <==> now < 0) && (answer == Err(NotFound) <==> 0 <= now && !known) &&
            (answer == Err(Revoked) <==> known && !live) && (answer == Err(Expired) <==> live && !current) &&
            (forall i :: answer == Ok(i) <==> current && t.instances[id] == i)
  {
  }
}
