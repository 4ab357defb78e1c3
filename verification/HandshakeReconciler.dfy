/** One reconciliation pass: every candidate is attempted in order, and no attempt disturbs another. */
module HandshakeReconciler {
  import opened Foundations
  import opened FieldEncoding
  import opened Handshakes
  import opened Instances

  datatype Outcome = AlreadyFresh(handshake: Handshake) | NowVerified(handshake: Handshake) | Failed(error: HandshakeError)
  datatype Attempt = Attempt(instanceId: Uuid, outcome: Outcome)

  /** Everything outside the kernel: randomness for each target, and what comes back from each endpoint. */
  datatype Environment = Environment(
    crypto: Crypto, choice: Choice, nonce: Uuid -> Option<Bytes32>,
    transport: (string, SignedChallenge) -> Result<Exchange, HandshakeError>)

  function IssueFor(env: Environment, kernel: PublicKey, i: RegisteredInstance, now: i64): Result<SignedChallenge, HandshakeError> {
    Issue(env.crypto, kernel, i, now, env.nonce(i.publicKey.instanceId))
  }

  function AttemptOn(env: Environment, s: Store, kernel: PublicKey, i: RegisteredInstance, now: i64): (Store, Outcome) {
    match FindFresh(s, env.choice, kernel.instanceId, i.publicKey.instanceId, now)
    case Err(error) => (s, Failed(error))
    case Ok(Some(h)) => (s, AlreadyFresh(h))
    case Ok(None) =>
      match IssueFor(env, kernel, i, now)
      case Err(error) => (s, Failed(error))
      case Ok(c) =>
        var (stored, refused) := InsertChallenge(s, DigestOf(env.crypto, c), c.challenge);
        if refused.Some? then (s, Failed(refused.value))
        else
          match env.transport(i.endpoint, c)
          case Err(error) => (stored, Failed(error))
          case Ok(exchange) =>
            match Settle(env.crypto, kernel, i, c, exchange)
            case Err(error) => (stored, Failed(error))
            case Ok(h) =>
              var (completed, rejected) := Complete(stored, h);
              if rejected.Some? then (stored, Failed(rejected.value)) else (completed, NowVerified(h))
  }

  function AttemptAll(env: Environment, s: Store, kernel: PublicKey, candidates: seq<RegisteredInstance>, now: i64)
    : (r: (Store, seq<Attempt>))
    ensures |r.1| == |candidates|
  {
    if candidates == [] then (s, [])
    else
      var n := |candidates| - 1;
      var (before, attempts) := AttemptAll(env, s, kernel, candidates[..n], now);
      var (after, outcome) := AttemptOn(env, before, kernel, candidates[n], now);
      (after, attempts + [Attempt(candidates[n].publicKey.instanceId, outcome)])
  }

  class Reconciler {
    const kernel: PublicKey
    var challenges: map<Bytes32, ChallengeRow>
    var handshakes: map<Bytes32, Handshake>
    var audit: seq<AuditRow>

    constructor (kernel: PublicKey)
      ensures this.kernel == kernel && Contents() == EMPTY
    {
      this.kernel, challenges, handshakes, audit := kernel, map[], map[], [];
    }

    function Contents(): Store
      reads this
    {
      Store(challenges, handshakes, audit)
    }

    method Insert(digest: Bytes32, c: Challenge) returns (error: Option<HandshakeError>)
      modifies this
      ensures (Contents(), error) == InsertChallenge(old(Contents()), digest, c)
    {
      if digest in challenges || c.issuedAt < 0 || c.expiresAt <= c.issuedAt { return Some(RepositoryFailure); }
      challenges := challenges[digest := RowOf(c)];
      audit := audit + [AuditRow(digest, c.kernelInstance, c.targetInstance, Issued, c.issuedAt)];
      return None;
    }

    /** A transaction: an error after the update rolls the update back. */
    method CompleteHandshake(h: Handshake) returns (error: Option<HandshakeError>)
      modifies this
      ensures (Contents(), error) == Complete(old(Contents()), h)
    {
      var rows := if Consumable(Contents(), h) then 1 else 0;
      if rows != 1 { return Some(ChallengeAlreadyUsed); }
      var before := challenges;
      if h.verifiedAt < challenges[h.digest].issuedAt { return Some(RepositoryFailure); }
      challenges := challenges[h.digest := challenges[h.digest].(consumedAt := Some(h.verifiedAt))];
      if h.digest in handshakes || h.verifiedAt < 0 || h.expiresAt <= h.verifiedAt {
        challenges := before;
        return Some(RepositoryFailure);
      }
      handshakes := handshakes[h.digest := h];
      audit := audit + [AuditRow(h.digest, h.kernel, h.target, Verified, h.verifiedAt)];
      return None;
    }

    method ReconcileInstance(env: Environment, i: RegisteredInstance, now: i64) returns (outcome: Outcome)
      modifies this
      ensures (Contents(), outcome) == AttemptOn(env, old(Contents()), kernel, i, now)
    {
      var existing := FindFresh(Contents(), env.choice, kernel.instanceId, i.publicKey.instanceId, now);
      if existing.Err? { return Failed(existing.error); }
      if existing.value.Some? { return AlreadyFresh(existing.value.value); }
      var challenge := IssueFor(env, kernel, i, now);
      if challenge.Err? { return Failed(challenge.error); }
      var refused := Insert(DigestOf(env.crypto, challenge.value), challenge.value.challenge);
      if refused.Some? { return Failed(refused.value); }
      var exchange := env.transport(i.endpoint, challenge.value);
      if exchange.Err? { return Failed(exchange.error); }
      var handshake := Settle(env.crypto, kernel, i, challenge.value, exchange.value);
      if handshake.Err? { return Failed(handshake.error); }
      var rejected := CompleteHandshake(handshake.value);
      if rejected.Some? { return Failed(rejected.value); }
      return NowVerified(handshake.value);
    }

    method Reconcile(env: Environment, discovered: Result<seq<RegisteredInstance>, HandshakeError>, now: i64)
      returns (report: Result<seq<Attempt>, HandshakeError>)
      modifies this
      ensures now < 0 ==> report == Err(InvalidTimestamp)
      ensures now >= 0 && discovered.Err? ==> report == Err(discovered.error)
      ensures report.Err? ==> Contents() == old(Contents())
      ensures now >= 0 && discovered.Ok? ==>
                report.Ok? && (Contents(), report.value) == AttemptAll(env, old(Contents()), kernel, discovered.value, now)
    {
      hide AttemptOn;
      if now < 0 { return Err(InvalidTimestamp); }
      if discovered.Err? { return Err(discovered.error); }
      var candidates := discovered.value;
      var attempts := [];
      for i := 0 to |candidates|
        invariant (Contents(), attempts) == AttemptAll(env, old(Contents()), kernel, candidates[..i], now)
      {
        var outcome := ReconcileInstance(env, candidates[i], now);
        attempts := attempts + [Attempt(candidates[i].publicKey.instanceId, outcome)];
        assert candidates[..i + 1][..i] == candidates[..i];
      }
      assert candidates[..|candidates|] == candidates;
      report := Ok(attempts);
    }
  }

  // ---- A pass is a run of the shared protocol ----

  function StepAll(crypto: Crypto, s: State, events: seq<Event>): State
    decreases |events|
  {
    if events == [] then s else StepAll(crypto, Step(crypto, s, events[0]), events[1..])
  }

  /** The transactions one attempt commits. */
  function EventsOf(env: Environment, s: Store, kernel: PublicKey, i: RegisteredInstance, now: i64): seq<Event> {
    if !(FindFresh(s, env.choice, kernel.instanceId, i.publicKey.instanceId, now) == Ok(None)) then []
    else
      match IssueFor(env, kernel, i, now)
      case Err(_) => []
      case Ok(c) =>
        var begin := Begin(kernel, i, now, env.nonce(i.publicKey.instanceId));
        if InsertChallenge(s, DigestOf(env.crypto, c), c.challenge).1.Some? then [begin]
        else
          match env.transport(i.endpoint, c)
          case Err(_) => [begin]
          case Ok(exchange) => [begin, Finish(DigestOf(env.crypto, c), exchange)]
  }

  lemma AttemptIsSteps(env: Environment, s: State, kernel: PublicKey, i: RegisteredInstance, now: i64)
    ensures StepAll(env.crypto, s, EventsOf(env, s.store, kernel, i, now)).store == AttemptOn(env, s.store, kernel, i, now).0
  {
    hide Issue, Settle, InsertChallenge, Complete, FindFresh, DigestOf;
    var issued := IssueFor(env, kernel, i, now);
    if issued.Ok? {
      var c := issued.value;
      var begin := Begin(kernel, i, now, env.nonce(i.publicKey.instanceId));
      var begun := Step(env.crypto, s, begin);
      assert StepAll(env.crypto, begun, []) == begun;
      assert [begin][1..] == [];
      if env.transport(i.endpoint, c).Ok? {
        var finish := Finish(DigestOf(env.crypto, c), env.transport(i.endpoint, c).value);
        assert [begin, finish][1..] == [finish] && [finish][1..] == [];
        assert StepAll(env.crypto, begun, [finish]) == Step(env.crypto, begun, finish);
      }
    }
  }

  lemma {:induction false} RunContinues(crypto: Crypto, events: seq<Event>, more: seq<Event>)
    ensures Run(crypto, events + more) == StepAll(crypto, Run(crypto, events), more)
    decreases |more|
  {
    if more == [] {
      assert events + more == events;
    } else {
      var next := events + [more[0]];
      assert next[..|events|] == events && next + more[1..] == events + more;
      RunContinues(crypto, next, more[1..]);
    }
  }

  /** The transactions a whole pass commits. */
  function PassEvents(env: Environment, s: Store, kernel: PublicKey, candidates: seq<RegisteredInstance>, now: i64): seq<Event> {
    if candidates == [] then []
    else
      var front, last := candidates[..|candidates| - 1], candidates[|candidates| - 1];
      PassEvents(env, s, kernel, front, now) +
      EventsOf(env, AttemptAll(env, s, kernel, front, now).0, kernel, last, now)
  }

  /** A pass over any candidates extends the run before it, so what holds of every run holds of every pass. */
  lemma {:induction false} PassIsSteps(env: Environment, events: seq<Event>, kernel: PublicKey,
                                       candidates: seq<RegisteredInstance>, now: i64)
    ensures var s := Run(env.crypto, events).store;
            Run(env.crypto, events + PassEvents(env, s, kernel, candidates, now)).store ==
            AttemptAll(env, s, kernel, candidates, now).0
    decreases |candidates|
  {
    hide AttemptOn, EventsOf, Step;
    var s := Run(env.crypto, events).store;
    if candidates == [] {
      assert events + [] == events;
    } else {
      var front, last := candidates[..|candidates| - 1], candidates[|candidates| - 1];
      PassIsSteps(env, events, kernel, front, now);
      var before := events + PassEvents(env, s, kernel, front, now);
      var more := EventsOf(env, Run(env.crypto, before).store, kernel, last, now);
      AttemptIsSteps(env, Run(env.crypto, before), kernel, last, now);
      RunContinues(env.crypto, before, more);
      assert before + more == events + PassEvents(env, s, kernel, candidates, now);
    }
  }

  /** Passes by any kernels, one after another, with one kind of hashing and signing. */
  datatype Pass = Pass(env: Environment, kernel: PublicKey, candidates: seq<RegisteredInstance>, now: i64)

  function AfterPasses(passes: seq<Pass>): Store {
    if passes == [] then EMPTY
    else
      var p := passes[|passes| - 1];
      AttemptAll(p.env, AfterPasses(passes[..|passes| - 1]), p.kernel, p.candidates, p.now).0
  }

  lemma {:induction false} PassesAreARun(crypto: Crypto, passes: seq<Pass>) returns (events: seq<Event>)
    requires forall p | p in passes :: p.env.crypto == crypto
    ensures Run(crypto, events).store == AfterPasses(passes)
  {
    events := [];
    if passes != [] {
      var p := passes[|passes| - 1];
      var before := PassesAreARun(crypto, passes[..|passes| - 1]);
      PassIsSteps(p.env, before, p.kernel, p.candidates, p.now);
      events := before + PassEvents(p.env, Run(crypto, before).store, p.kernel, p.candidates, p.now);
    }
  }

  /** After any passes, the tables are those of a sound run, and whom they let through has answered in it. */
  lemma PassesAreSafe(crypto: Crypto, passes: seq<Pass>, choice: Choice, kernel: Uuid, target: Uuid, now: i64)
    requires (forall p | p in passes :: p.env.crypto == crypto) && Chooses(choice)
    ensures exists events ::
              var s := Run(crypto, events);
              s.store == AfterPasses(passes) && Sound(crypto, s) &&
              (RequireFresh(s.store, choice, kernel, target, now).Ok? ==>
                 Answered(crypto, s, RequireFresh(s.store, choice, kernel, target, now).value, kernel, target, now))
  {
    var events := PassesAreARun(crypto, passes);
    RunsAreSound(crypto, events);
    var s := Run(crypto, events);
    if RequireFresh(s.store, choice, kernel, target, now).Ok? {
      FreshMeansAnswered(crypto, events, choice, kernel, target, now);
    }
    hide Sound, Answered, RequireFresh;
  }

  // ---- No attempt disturbs another ----

  ghost predicate Same(env: Environment, s: Store, t: Store, kernel: PublicKey, i: RegisteredInstance, now: i64) {
    var issued := IssueFor(env, kernel, i, now);
    FreshRows(s, kernel.instanceId, i.publicKey.instanceId, now) == FreshRows(t, kernel.instanceId, i.publicKey.instanceId, now) &&
    (issued.Ok? ==>
       var d := DigestOf(env.crypto, issued.value);
       (d in s.challenges <==> d in t.challenges) && (d in s.handshakes <==> d in t.handshakes))
  }

  /** An attempt looks at its own rows only. */
  lemma AttemptIsLocal(env: Environment, s: Store, t: Store, kernel: PublicKey, i: RegisteredInstance, now: i64)
    requires Same(env, s, t, kernel, i, now)
    ensures AttemptOn(env, s, kernel, i, now).1 == AttemptOn(env, t, kernel, i, now).1
  {
    hide FreshRows, IssueFor, DigestOf, Verify, ChallengeMessage, ResponseMessage;
    var issued := IssueFor(env, kernel, i, now);
    if issued.Ok? && env.transport(i.endpoint, issued.value).Ok? {
      SettledDigest(env, kernel, i, issued.value, env.transport(i.endpoint, issued.value).value);
    }
    hide Settle;
  }

  lemma SettledDigest(env: Environment, kernel: PublicKey, i: RegisteredInstance, c: SignedChallenge, x: Exchange)
    ensures Settle(env.crypto, kernel, i, c, x).Ok? ==>
              Settle(env.crypto, kernel, i, c, x).value.digest == DigestOf(env.crypto, c) &&
              Settle(env.crypto, kernel, i, c, x).value.target == i.publicKey.instanceId
  {
    hide Verify;
  }

  ghost predicate Apart(env: Environment, kernel: PublicKey, a: RegisteredInstance, b: RegisteredInstance, now: i64) {
    var x, y := IssueFor(env, kernel, a, now), IssueFor(env, kernel, b, now);
    a.publicKey.instanceId != b.publicKey.instanceId &&
    (x.Ok? && y.Ok? ==> DigestOf(env.crypto, x.value) != DigestOf(env.crypto, y.value))
  }

  /** The rows an attempt may have touched: its own challenge, and a handshake of its own target under that challenge. */
  ghost predicate Touched(s: Store, t: Store, d: Bytes32, target: Uuid) {
    (forall e | e != d :: (e in s.challenges <==> e in t.challenges) && (e in s.handshakes <==> e in t.handshakes) &&
                          (e in s.handshakes ==> s.handshakes[e] == t.handshakes[e])) &&
    (d in s.handshakes ==> d in t.handshakes && t.handshakes[d] == s.handshakes[d]) &&
    (d in t.handshakes && d !in s.handshakes ==> t.handshakes[d].target == target)
  }

  lemma AttemptTouches(env: Environment, s: Store, kernel: PublicKey, i: RegisteredInstance, now: i64)
    ensures var t := AttemptOn(env, s, kernel, i, now).0;
            var issued := IssueFor(env, kernel, i, now);
            if issued.Ok? then Touched(s, t, DigestOf(env.crypto, issued.value), i.publicKey.instanceId) else t == s
  {
    hide FindFresh, IssueFor, DigestOf, Verify, ChallengeMessage, ResponseMessage;
    var issued := IssueFor(env, kernel, i, now);
    if issued.Ok? && env.transport(i.endpoint, issued.value).Ok? {
      SettledDigest(env, kernel, i, issued.value, env.transport(i.endpoint, issued.value).value);
    }
    hide Settle;
  }

  lemma TouchedKeepsFresh(s: Store, t: Store, d: Bytes32, target: Uuid, kernel: Uuid, other: Uuid, now: i64)
    requires Touched(s, t, d, target) && other != target
    ensures FreshRows(s, kernel, other, now) == FreshRows(t, kernel, other, now)
  {
    forall h | h in FreshRows(s, kernel, other, now) ensures h in FreshRows(t, kernel, other, now) {
      var e :| e in s.handshakes && s.handshakes[e] == h;
      assert e in t.handshakes && t.handshakes[e] == h;
    }
    forall h | h in FreshRows(t, kernel, other, now) ensures h in FreshRows(s, kernel, other, now) {
      var e :| e in t.handshakes && t.handshakes[e] == h;
      assert e in s.handshakes && s.handshakes[e] == h;
    }
  }

  lemma AttemptLeavesOthers(env: Environment, s: Store, kernel: PublicKey, a: RegisteredInstance, b: RegisteredInstance, now: i64)
    requires Apart(env, kernel, a, b, now)
    ensures Same(env, s, AttemptOn(env, s, kernel, a, now).0, kernel, b, now)
  {
    hide AttemptOn, IssueFor, DigestOf, FreshRows;
    AttemptTouches(env, s, kernel, a, now);
    var issued := IssueFor(env, kernel, a, now);
    if issued.Ok? {
      TouchedKeepsFresh(s, AttemptOn(env, s, kernel, a, now).0, DigestOf(env.crypto, issued.value),
                        a.publicKey.instanceId, kernel.instanceId, b.publicKey.instanceId, now);
    }
  }

  lemma {:induction false} AttemptsLeaveOthers(env: Environment, s: Store, kernel: PublicKey,
                                               candidates: seq<RegisteredInstance>, b: RegisteredInstance, now: i64)
    requires forall a | a in candidates :: Apart(env, kernel, a, b, now)
    ensures Same(env, s, AttemptAll(env, s, kernel, candidates, now).0, kernel, b, now)
  {
    hide AttemptOn, Apart, FreshRows, IssueFor, DigestOf;
    if candidates != [] {
      var n := |candidates| - 1;
      AttemptsLeaveOthers(env, s, kernel, candidates[..n], b, now);
      AttemptLeavesOthers(env, AttemptAll(env, s, kernel, candidates[..n], now).0, kernel, candidates[n], b, now);
    }
  }

  /** Hashing keeps these two challenges apart, as far as it depends on what is hashed. */
  ghost predicate NoCollision(crypto: Crypto, c: SignedChallenge, d: SignedChallenge) {
    DigestOf(crypto, c) == DigestOf(crypto, d) ==>
      ChallengeMessage(c.challenge) + c.signature == ChallengeMessage(d.challenge) + d.signature
  }

  ghost predicate Distinct(env: Environment, kernel: PublicKey, candidates: seq<RegisteredInstance>, now: i64) {
    forall i, j | 0 <= i < j < |candidates| ::
      candidates[i].publicKey.instanceId != candidates[j].publicKey.instanceId &&
      (IssueFor(env, kernel, candidates[i], now).Ok? && IssueFor(env, kernel, candidates[j], now).Ok? ==>
         NoCollision(env.crypto, IssueFor(env, kernel, candidates[i], now).value, IssueFor(env, kernel, candidates[j], now).value))
  }

  lemma SignatureSplitsOff(m: Bytes, x: Bytes64, n: Bytes, y: Bytes64)
    requires m + x == n + y
    ensures m == n
  {
    assert m == (m + x)[..|m + x| - 64] && n == (n + y)[..|n + y| - 64];
  }

  lemma DistinctTargetsApart(env: Environment, kernel: PublicKey, a: RegisteredInstance, b: RegisteredInstance, now: i64)
    requires a.publicKey.instanceId != b.publicKey.instanceId
    requires IssueFor(env, kernel, a, now).Ok? && IssueFor(env, kernel, b, now).Ok? ==>
               NoCollision(env.crypto, IssueFor(env, kernel, a, now).value, IssueFor(env, kernel, b, now).value)
    ensures Apart(env, kernel, a, b, now)
  {
    hide ChallengeMessage;
    var x, y := IssueFor(env, kernel, a, now), IssueFor(env, kernel, b, now);
    if x.Ok? && y.Ok? && DigestOf(env.crypto, x.value) == DigestOf(env.crypto, y.value) {
      SignatureSplitsOff(ChallengeMessage(x.value.challenge), x.value.signature,
                         ChallengeMessage(y.value.challenge), y.value.signature);
      ChallengeRecovered(x.value.challenge, y.value.challenge);
    }
  }

  /** One attempt for each candidate, in order, and each as it would be with no other candidate. */
  lemma {:induction false} AttemptsAreIndependent(env: Environment, s: Store, kernel: PublicKey,
                                                  candidates: seq<RegisteredInstance>, now: i64, k: nat)
    requires Distinct(env, kernel, candidates, now) && k < |candidates|
    ensures AttemptAll(env, s, kernel, candidates, now).1[k] ==
            Attempt(candidates[k].publicKey.instanceId, AttemptOn(env, s, kernel, candidates[k], now).1)
    decreases |candidates|
  {
    hide AttemptOn, IssueFor, NoCollision;
    var n := |candidates| - 1;
    var front := candidates[..n];
    assert forall i | 0 <= i < n :: front[i] == candidates[i];
    if k < n {
      AttemptsAreIndependent(env, s, kernel, front, now, k);
    } else {
      forall a | a in front ensures Apart(env, kernel, a, candidates[n], now) {
        DistinctTargetsApart(env, kernel, a, candidates[n], now);
      }
      AttemptsLeaveOthers(env, s, kernel, front, candidates[n], now);
      AttemptIsLocal(env, s, AttemptAll(env, s, kernel, front, now).0, kernel, candidates[n], now);
    }
  }

  /** The reply of this target proves possession of its key, in time and for this challenge. */
  ghost predicate AnswersWell(crypto: Crypto, i: RegisteredInstance, c: SignedChallenge, x: Exchange) {
    var r, k := x.response.response, i.publicKey;
    c.challenge.issuedAt <= x.receivedAt < c.challenge.expiresAt && x.receivedAt <= MAX_I64 - 30 &&
    r == Response(c.challenge.kernelInstance, k.instanceId, k.keyId, DigestOf(crypto, c)) &&
    crypto.verifies(k.key, ResponseMessage(r), x.response.signature)
  }

  lemma AnswersWellSettles(env: Environment, kernel: PublicKey, i: RegisteredInstance, now: i64, x: Exchange)
    requires IssueFor(env, kernel, i, now).Ok?
    ensures var c := IssueFor(env, kernel, i, now).value;
            Settle(env.crypto, kernel, i, c, x).Ok? <==> AnswersWell(env.crypto, i, c, x)
  {
    hide ChallengeMessage, ResponseMessage;
    IssuedIsGenuine(env.crypto, kernel, i, now, env.nonce(i.publicKey.instanceId));
  }

  /**
   A target is verified exactly when it answers well, at the time its reply was received; its record is then fresh at
   exactly the instants from there to thirty seconds later, within the lease.
   */
  lemma VerifiedExactly(env: Environment, s: Store, kernel: PublicKey, i: RegisteredInstance, now: i64)
    requires FindFresh(s, env.choice, kernel.instanceId, i.publicKey.instanceId, now) == Ok(None)
    requires IssueFor(env, kernel, i, now).Ok?
    requires DigestOf(env.crypto, IssueFor(env, kernel, i, now).value) !in s.challenges
    requires DigestOf(env.crypto, IssueFor(env, kernel, i, now).value) !in s.handshakes
    ensures var (after, outcome) := AttemptOn(env, s, kernel, i, now);
            var c := IssueFor(env, kernel, i, now).value;
            var reply := env.transport(i.endpoint, c);
            (outcome.NowVerified? <==> reply.Ok? && AnswersWell(env.crypto, i, c, reply.value)) &&
            (outcome.NowVerified? ==>
               outcome.handshake.verifiedAt == reply.value.receivedAt &&
               forall t: i64 ::
                 outcome.handshake in FreshRows(after, kernel.instanceId, i.publicKey.instanceId, t) <==>
                 reply.value.receivedAt <= t < reply.value.receivedAt + 30 && t < i.leaseExpiresAt)
  {
    hide FindFresh, ChallengeMessage, ResponseMessage, FreshRows;
    var c := IssueFor(env, kernel, i, now).value;
    var reply := env.transport(i.endpoint, c);
    IssuedIsGenuine(env.crypto, kernel, i, now, env.nonce(i.publicKey.instanceId));
    if reply.Ok? {
      AnswersWellSettles(env, kernel, i, now, reply.value);
      if Settle(env.crypto, kernel, i, c, reply.value).Ok? {
        SettledIsGenuine(env.crypto, DigestOf(env.crypto, c), Flight(kernel, i, c), reply.value);
        var h := Settle(env.crypto, kernel, i, c, reply.value).value;
        hide Settle, Issue, IssueFor, DigestOf, AnswersWell;
        var (after, outcome) := AttemptOn(env, s, kernel, i, now);
        assert outcome == NowVerified(h);
        forall t: i64
          ensures h in FreshRows(after, kernel.instanceId, i.publicKey.instanceId, t) <==>
                  reply.value.receivedAt <= t < reply.value.receivedAt + 30 && t < i.leaseExpiresAt
        {
          StoredIsFound(after, h, t);
        }
      }
    }
  }

  /** After an attempt that verified a target in any reachable state, the target is let through at all those instants. */
  lemma VerifiedIsLetThrough(env: Environment, events: seq<Event>, kernel: PublicKey, i: RegisteredInstance, now: i64, later: i64)
    requires Chooses(env.choice) && later >= 0
    requires AttemptOn(env, Run(env.crypto, events).store, kernel, i, now).1.NowVerified?
    requires var h := AttemptOn(env, Run(env.crypto, events).store, kernel, i, now).1.handshake;
             h.verifiedAt <= later < h.verifiedAt + 30 && later < i.leaseExpiresAt
    ensures RequireFresh(AttemptOn(env, Run(env.crypto, events).store, kernel, i, now).0, env.choice,
                         kernel.instanceId, i.publicKey.instanceId, later).Ok?
  {
    var s := Run(env.crypto, events);
    var more := EventsOf(env, s.store, kernel, i, now);
    AttemptIsSteps(env, s, kernel, i, now);
    RunContinues(env.crypto, events, more);
    FreshRowIsEnough(env.crypto, events + more, env.choice, kernel.instanceId, i.publicKey.instanceId, later);
    var (after, outcome) := AttemptOn(env, s.store, kernel, i, now);
    NewlyVerified(env, s.store, kernel, i, now);
    hide AttemptOn, Run, StepAll, EventsOf, RequireFresh, Chooses;
    StoredIsFound(after, outcome.handshake, later);
  }

  lemma NewlyVerified(env: Environment, s: Store, kernel: PublicKey, i: RegisteredInstance, now: i64)
    requires AttemptOn(env, s, kernel, i, now).1.NowVerified?
    ensures var (after, outcome) := AttemptOn(env, s, kernel, i, now);
            var h := outcome.handshake;
            h.digest in after.handshakes && after.handshakes[h.digest] == h &&
            h.kernel == kernel.instanceId && h.target == i.publicKey.instanceId &&
            IsEarlier(h.expiresAt, h.verifiedAt + 30, i.leaseExpiresAt)
  {
    hide FindFresh, ChallengeMessage, ResponseMessage, InsertChallenge;
    var c := IssueFor(env, kernel, i, now).value;
    IssuedIsGenuine(env.crypto, kernel, i, now, env.nonce(i.publicKey.instanceId));
    SettledIsGenuine(env.crypto, DigestOf(env.crypto, c), Flight(kernel, i, c), env.transport(i.endpoint, c).value);
    hide Settle, Issue, IssueFor, DigestOf;
  }

  lemma StoredIsFound(s: Store, h: Handshake, t: i64)
    requires h.digest in s.handshakes && s.handshakes[h.digest] == h
    ensures h in FreshRows(s, h.kernel, h.target, t) <==> h.verifiedAt <= t < h.expiresAt
  {
  }

  /** Why an attempt fails, stage by stage, and what it has stored by then: at most the challenge it issued. */
  lemma FailedExactly(env: Environment, s: Store, kernel: PublicKey, i: RegisteredInstance, now: i64, error: HandshakeError)
    ensures var (s', outcome) := AttemptOn(env, s, kernel, i, now);
            var found := FindFresh(s, env.choice, kernel.instanceId, i.publicKey.instanceId, now);
            var issued := Issue(env.crypto, kernel, i, now, env.nonce(i.publicKey.instanceId));
            (forall h :: outcome == AlreadyFresh(h) <==> found == Ok(Some(h))) &&
            (outcome == Failed(error) <==>
               if found != Ok(None) then found == Err(error)
               else if issued.Err? then issued == Err(error)
               else
                 var digest := DigestOf(env.crypto, issued.value);
                 var (stored, refused) := InsertChallenge(s, digest, issued.value.challenge);
                 if refused.Some? then refused == Some(error)
                 else
                   var heard := env.transport(i.endpoint, issued.value);
                   if heard.Err? then heard == Err(error)
                   else
                     var settled := Settle(env.crypto, kernel, i, issued.value, heard.value);
                     if settled.Err? then settled == Err(error) else Complete(stored, settled.value).1 == Some(error)) &&
            (outcome.Failed? ==> s'.handshakes == s.handshakes && |s'.audit| <= |s.audit| + 1) &&
            (outcome.Failed? && s' != s ==>
               issued.Ok? && DigestOf(env.crypto, issued.value) !in s.challenges &&
               DigestOf(env.crypto, issued.value) in s'.challenges &&
               s'.challenges[DigestOf(env.crypto, issued.value)].consumedAt == None)
  {
    hide FindFresh, Issue, Settle, DigestOf;
  }
}
