/**
 Why a renewal failed: the classifier reads the row after the update has found none, possibly past other commits,
 and its last branch answers for a row that would by then have matched.
 */
module RenewalFailures {
  import opened Foundations
  import opened Instances
  import opened InstanceRegistry

  /** An unused key ID and an unused fingerprint are left. */
  ghost predicate UsableKey(t: Tables) {
    (exists k: Uuid :: k !in t.keys) && (exists f: Bytes :: !FingerprintTaken(t, f))
  }

  /** The furthest a lease can reach: each renewal comes at the last moment and gains a policy less one second. */
  function Reach(i: RegisteredInstance, policy: Policy, expected: i64): int {
    i.leaseExpiresAt + (expected - i.leaseRevision) * (policy - 1)
  }

  /** The table can still come to hold a row that the update would have matched. */
  ghost predicate CanCatchUp(t: Tables, policy: Policy, id: Uuid, expected: i64, now: i64) {
    if id in t.instances then
      var i := t.instances[id];
      i.revokedAt.None? && i.registeredAt <= now && i.leaseRevision < expected && Reach(i, policy, expected) > now
    else UsableKey(t)
  }

  lemma {:induction false} RunPrepends(t: Tables, policy: Policy, e: Event, events: seq<Event>)
    ensures Run(t, policy, [e] + events) == Run(Step(t, policy, e), policy, events)
  {
    var all := [e] + events;
    if events == [] {
      assert all[..0] == [] && all == [e];
    } else {
      assert all[..|all| - 1] == [e] + events[..|events| - 1];
      RunPrepends(t, policy, e, events[..|events| - 1]);
    }
  }

  // ---- What renewals can reach ----

  lemma ReachAfterRenewal(i: RegisteredInstance, j: RegisteredInstance, policy: Policy, expected: i64)
    requires j.leaseRevision == i.leaseRevision + 1 && j.leaseExpiresAt <= i.leaseExpiresAt + (policy - 1)
    ensures Reach(j, policy, expected) <= Reach(i, policy, expected)
    ensures j.leaseExpiresAt == i.leaseExpiresAt + (policy - 1) ==> Reach(j, policy, expected) == Reach(i, policy, expected)
  {
    var n := expected - i.leaseRevision;
    assert n * (policy - 1) == (policy - 1) + (n - 1) * (policy - 1);
  }

  lemma ReachFromBeyond(i: RegisteredInstance, policy: Policy, expected: i64, now: i64)
    requires i.leaseExpiresAt > now && i.leaseRevision <= expected
    ensures Reach(i, policy, expected) > now
  {
    assert (expected - i.leaseRevision) * (policy - 1) >= 0;
  }

  /** Renewing each time at the last useful moment reaches the expected revision with a lease that has not lapsed. */
  lemma {:induction false} CatchesUp(t: Tables, policy: Policy, id: Uuid, expected: i64, now: i64) returns (events: seq<Event>)
    requires id in t.instances && ValidRecord(t.instances[id]) && t.instances[id].revokedAt.None?
    requires 0 <= now <= MAX_I64 - policy && t.instances[id].registeredAt <= now
    requires t.instances[id].leaseRevision <= expected && Reach(t.instances[id], policy, expected) > now
    ensures Renewable(Run(t, policy, events), id, expected, now)
    decreases expected - t.instances[id].leaseRevision
  {
    var i := t.instances[id];
    if i.leaseRevision == expected {
      events := [];
    } else {
      var at := if i.leaseExpiresAt - 1 < now then i.leaseExpiresAt - 1 else now;
      var e := DoRenew(id, i.leaseRevision, at);
      var after := Step(t, policy, e);
      var j := after.instances[id];
      assert j == i.(leaseExpiresAt := at + policy, leaseRevision := i.leaseRevision + 1);
      if at == now { ReachFromBeyond(j, policy, expected, now); } else { ReachAfterRenewal(i, j, policy, expected); }
      var rest := CatchesUp(after, policy, id, expected, now);
      RunPrepends(t, policy, e, rest);
      events := [e] + rest;
    }
  }

  /** No run takes a lease beyond its reach. */
  lemma {:induction false} StaysWithinReach(t: Tables, policy: Policy, events: seq<Event>, id: Uuid, expected: i64)
    requires id in t.instances
    ensures var u := Run(t, policy, events);
            id in u.instances && Reach(u.instances[id], policy, expected) <= Reach(t.instances[id], policy, expected)
  {
    if events != [] {
      var n := |events| - 1;
      var before, after := Run(t, policy, events[..n]), Run(t, policy, events);
      StaysWithinReach(t, policy, events[..n], id, expected);
      if before.instances[id].leaseRevision != after.instances[id].leaseRevision {
        ReachAfterRenewal(before.instances[id], after.instances[id], policy, expected);
      }
    }
  }

  // ---- What registrations need ----

  lemma StepKeepsKeys(t: Tables, policy: Policy, e: Event)
    ensures t.keys.Keys <= Step(t, policy, e).keys.Keys
    ensures forall f | FingerprintTaken(t, f) :: FingerprintTaken(Step(t, policy, e), f)
  {
    var u := Step(t, policy, e);
    assert forall k | k in t.keys :: k in u.keys && u.keys[k].fingerprint == t.keys[k].fingerprint;
    forall f | FingerprintTaken(t, f) ensures FingerprintTaken(u, f) {
      var k :| k in t.keys && t.keys[k].fingerprint == f;
      assert u.keys[k].fingerprint == f;
    }
  }

  lemma {:induction false} RegistrationNeedsKey(t: Tables, policy: Policy, events: seq<Event>, id: Uuid)
    requires id !in t.instances && id in Run(t, policy, events).instances
    ensures UsableKey(t)
    decreases |events|
  {
    if events != [] {
      var n := |events| - 1;
      var before := Run(t, policy, events[..n]);
      if id in before.instances {
        RegistrationNeedsKey(t, policy, events[..n], id);
      } else {
        var e := events[n];
        assert e.key.keyId !in before.keys && !FingerprintTaken(before, e.fingerprint);
        UnusedBefore(t, policy, events[..n], e.key.keyId, e.fingerprint);
      }
    }
  }

  lemma {:induction false} UnusedBefore(t: Tables, policy: Policy, events: seq<Event>, k: Uuid, f: Bytes)
    requires k !in Run(t, policy, events).keys && !FingerprintTaken(Run(t, policy, events), f)
    ensures k !in t.keys && !FingerprintTaken(t, f)
  {
    if events != [] {
      var n := |events| - 1;
      StepKeepsKeys(Run(t, policy, events[..n]), policy, events[n]);
      UnusedBefore(t, policy, events[..n], k, f);
    }
  }

  lemma RegistersAndCatchesUp(t: Tables, policy: Policy, id: Uuid, expected: i64, now: i64) returns (events: seq<Event>)
    requires id !in t.instances && UsableKey(t) && expected > 0 && 0 <= now <= MAX_I64 - policy
    ensures Renewable(Run(t, policy, events), id, expected, now)
  {
    var k: Uuid :| k !in t.keys;
    var f: Bytes :| !FingerprintTaken(t, f);
    var key := PublicKey(id, id, k, seq(32, _ => 0 as byte));
    var e := DoRegister(key, "https://instance", f, true, now);
    var after := Step(t, policy, e);
    assert after.instances[id] == RegisteredInstance(key, "https://instance", now, now + policy, 1, None);
    ReachFromBeyond(after.instances[id], policy, expected, now);
    var rest := CatchesUp(after, policy, id, expected, now);
    RunPrepends(t, policy, e, rest);
    events := [e] + rest;
  }

  // ---- The last branch, exactly ----

  ghost predicate MeetsLastBranch(t: Tables, policy: Policy, between: seq<Event>, id: Uuid, expected: i64, now: i64) {
    Classify(Run(t, policy, between), id, expected, now) == RenewalNotApplied
  }

  lemma LastBranchNeedsCatchUp(t: Tables, policy: Policy, between: seq<Event>, id: Uuid, expected: i64, now: i64)
    requires !Renewable(t, id, expected, now) && MeetsLastBranch(t, policy, between, id, expected, now)
    ensures CanCatchUp(t, policy, id, expected, now)
  {
    if id in t.instances {
      RunAdvances(t, policy, between, id);
      StaysWithinReach(t, policy, between, id, expected);
    } else {
      RegistrationNeedsKey(t, policy, between, id);
    }
  }

  /**
   After an update that matched no row, some commits can make the classifier answer its last branch exactly when the
   table can still catch up with the caller: the instance is unregistered and a key is left to register it with, or it
   is unrevoked, registered by then, behind the expected revision and its lease can be carried past this time.
   */
  lemma LastBranchExactly(t: Tables, policy: Policy, id: Uuid, expected: i64, now: i64)
    requires Sound(t, policy) && expected > 0 && 0 <= now <= MAX_I64 - policy && !Renewable(t, id, expected, now)
    ensures (exists between :: MeetsLastBranch(t, policy, between, id, expected, now)) <==>
            CanCatchUp(t, policy, id, expected, now)
  {
    if between :| MeetsLastBranch(t, policy, between, id, expected, now) {
      LastBranchNeedsCatchUp(t, policy, between, id, expected, now);
    }
    if CanCatchUp(t, policy, id, expected, now) {
      var between;
      if id in t.instances {
        assert SoundRow(t, policy, id);
        between := CatchesUp(t, policy, id, expected, now);
      } else {
        between := RegistersAndCatchesUp(t, policy, id, expected, now);
      }
      hide Run;
      assert MeetsLastBranch(t, policy, between, id, expected, now);
    }
  }

  /** In particular a caller whose expected revision had been reached never sees it, whatever commits in between. */
  lemma ClassifierIsCompleteDespiteCommits(t: Tables, policy: Policy, between: seq<Event>, id: Uuid, expected: i64, now: i64)
    requires !Renewable(t, id, expected, now) && id in t.instances && t.instances[id].leaseRevision >= expected
    ensures Classify(Run(t, policy, between), id, expected, now) != RenewalNotApplied
  {
    RunAdvances(t, policy, between, id);
  }

  /** An instance eligible at that time: exactly the callers ahead of its revision. */
  lemma LastBranchForEligible(t: Tables, policy: Policy, id: Uuid, expected: i64, now: i64)
    requires Sound(t, policy) && expected > 0 && 0 <= now <= MAX_I64 - policy && !Renewable(t, id, expected, now)
    requires id in t.instances && EligibleAt(t.instances[id], now)
    ensures (exists between :: MeetsLastBranch(t, policy, between, id, expected, now)) <==>
            t.instances[id].leaseRevision < expected
  {
    LastBranchExactly(t, policy, id, expected, now);
    if t.instances[id].leaseRevision < expected { ReachFromBeyond(t.instances[id], policy, expected, now); }
  }
}
