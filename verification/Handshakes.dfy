/** Challenges issued to subscribed instances, their single consumption, and the freshness delivery relies on. */
module Handshakes {
  import opened Foundations
  import opened FieldEncoding
  import opened Instances

  const CHALLENGE_LIFETIME_SECONDS: i64 := 15
  const HANDSHAKE_LIFETIME_SECONDS: i64 := 30

  type Bytes64 = b: Bytes | |b| == 64 witness seq(64, _ => 0 as byte)

  datatype SignedChallenge = SignedChallenge(challenge: Challenge, signature: Bytes64)
  datatype SignedResponse = SignedResponse(response: Response, signature: Bytes64)
  datatype Exchange = Exchange(response: SignedResponse, receivedAt: i64)
  datatype Handshake = Handshake(
    digest: Bytes32, kernel: Uuid, target: Uuid, targetKey: Uuid, verifiedAt: i64, expiresAt: i64)

  datatype HandshakeError =
    | ChallengeAlreadyUsed | ChallengeExpired | HandshakeRequired(instanceId: Uuid) | IneligibleInstance(instanceId: Uuid)
    | InvalidStoredRecord | InvalidTargetSignature | InvalidTimestamp | RandomSource | RepositoryFailure | TargetMismatch
    | TransportFailure(detail: string)

  /** Hashing and signing, left open. */
  datatype Crypto = Crypto(
    digest: Bytes -> Bytes32, sign: (PublicKey, Bytes) -> Bytes64, verifies: (Bytes32, Bytes, Bytes64) -> bool)

  function Min(a: i64, b: i64): i64 { if a < b then a else b }

  function DigestOf(crypto: Crypto, c: SignedChallenge): Bytes32 {
    crypto.digest(ChallengeMessage(c.challenge) + c.signature)
  }

  // ---- Issuing, verifying, restoring ----

  function Issue(crypto: Crypto, kernel: PublicKey, target: RegisteredInstance, now: i64, nonce: Option<Bytes32>)
    : Result<SignedChallenge, HandshakeError>
  {
    if now < 0 || !EligibleAt(target, now) then Err(IneligibleInstance(target.publicKey.instanceId))
    else if CheckedAdd(now, CHALLENGE_LIFETIME_SECONDS).None? then Err(InvalidTimestamp)
    else
      var expiresAt := Min(now + CHALLENGE_LIFETIME_SECONDS, target.leaseExpiresAt);
      if expiresAt <= now then Err(InvalidTimestamp)
      else if nonce.None? then Err(RandomSource)
      else
        var c := Challenge(nonce.value, kernel.serviceId, kernel.instanceId, kernel.keyId, kernel.key,
                           target.publicKey.instanceId, target.publicKey.keyId, now, expiresAt);
        Ok(SignedChallenge(c, crypto.sign(kernel, ChallengeMessage(c))))
  }

  function Verify(crypto: Crypto, r: SignedResponse, c: SignedChallenge, target: PublicKey, now: i64): Option<HandshakeError> {
    if now < c.challenge.issuedAt || now >= c.challenge.expiresAt then Some(ChallengeExpired)
    else if r.response.kernelInstance != c.challenge.kernelInstance
         || r.response.targetInstance != c.challenge.targetInstance
         || r.response.targetKeyId != c.challenge.targetKeyId
         || r.response.challengeDigest != DigestOf(crypto, c)
         || target.instanceId != r.response.targetInstance
         || target.keyId != r.response.targetKeyId
      then Some(TargetMismatch)
    else if !crypto.verifies(target.key, ResponseMessage(r.response), r.signature) then Some(InvalidTargetSignature)
    else None
  }

  function Restore(h: Handshake): Result<Handshake, HandshakeError> {
    if h.verifiedAt < 0 || h.expiresAt <= h.verifiedAt then Err(InvalidStoredRecord) else Ok(h)
  }

  /** From a received response to the record of a handshake. */
  function Settle(crypto: Crypto, kernel: PublicKey, target: RegisteredInstance, c: SignedChallenge, e: Exchange)
    : Result<Handshake, HandshakeError>
  {
    match Verify(crypto, e.response, c, target.publicKey, e.receivedAt)
    case Some(error) => Err(error)
    case None =>
      if CheckedAdd(e.receivedAt, HANDSHAKE_LIFETIME_SECONDS).None? then Err(InvalidTimestamp)
      else
        Restore(Handshake(DigestOf(crypto, c), kernel.instanceId, target.publicKey.instanceId, target.publicKey.keyId,
                          e.receivedAt, Min(e.receivedAt + HANDSHAKE_LIFETIME_SECONDS, target.leaseExpiresAt)))
  }

  /** Who is issued a challenge, and why not. */
  lemma IssuedExactly(crypto: Crypto, kernel: PublicKey, target: RegisteredInstance, now: i64, nonce: Option<Bytes32>)
    ensures var eligible := target.revokedAt.None? && target.registeredAt <= now < target.leaseExpiresAt;
            var answer := Issue(crypto, kernel, target, now, nonce);
            (answer.Ok? <==> 0 <= now <= MAX_I64 - 15 && eligible && nonce.Some?) &&
            (answer == Err(IneligibleInstance(target.publicKey.instanceId)) <==> now < 0 || !eligible) &&
            (answer == Err(RandomSource) <==> 0 <= now <= MAX_I64 - 15 && eligible && nonce.None?) &&
            (answer.Ok? ==> answer.value.challenge.nonce == nonce.value && answer.value.challenge.issuedAt == now)
  {
    hide ChallengeMessage;
  }

  /** Why a response is refused: too early or late, for another exchange or key, or badly signed; else it is taken. */
  lemma ResponseAnsweredExactly(crypto: Crypto, r: SignedResponse, c: SignedChallenge, target: PublicKey, now: i64)
    ensures var answer := Verify(crypto, r, c, target, now);
            var inTime := c.challenge.issuedAt <= now < c.challenge.expiresAt;
            var asAsked :=
              r.response.kernelInstance == c.challenge.kernelInstance &&
              r.response.targetInstance == c.challenge.targetInstance == target.instanceId &&
              r.response.targetKeyId == c.challenge.targetKeyId == target.keyId &&
              r.response.challengeDigest == crypto.digest(ChallengeMessage(c.challenge) + c.signature);
            var signed := crypto.verifies(target.key, ResponseMessage(r.response), r.signature);
            (answer == Some(ChallengeExpired) <==> !inTime) &&
            (answer == Some(TargetMismatch) <==> inTime && !asAsked) &&
            (answer == Some(InvalidTargetSignature) <==> inTime && asAsked && !signed) &&
            (answer == None <==> inTime && asAsked && signed)
  {
    hide ChallengeMessage, ResponseMessage;
  }

  /** A response that verifies against an issued challenge always makes a valid record. */
  lemma RestoreNeverRejects(crypto: Crypto, kernel: PublicKey, target: RegisteredInstance, now: i64,
                            nonce: Option<Bytes32>, e: Exchange)
    requires Issue(crypto, kernel, target, now, nonce).Ok?
    ensures var c := Issue(crypto, kernel, target, now, nonce).value;
            Settle(crypto, kernel, target, c, e) != Err(InvalidStoredRecord) &&
            (Settle(crypto, kernel, target, c, e).Ok? <==>
               Verify(crypto, e.response, c, target.publicKey, e.receivedAt).None? &&
               e.receivedAt <= MAX_I64 - HANDSHAKE_LIFETIME_SECONDS)
  {
    hide ChallengeMessage, ResponseMessage;
  }

  // ---- The tables ----

  datatype ChallengeRow = ChallengeRow(
    kernel: Uuid, target: Uuid, targetKey: Uuid, issuedAt: i64, expiresAt: i64, consumedAt: Option<i64>)
  datatype Action = Issued | Verified
  datatype AuditRow = AuditRow(digest: Bytes32, kernel: Uuid, target: Uuid, action: Action, recordedAt: i64)
  datatype Store = Store(
    challenges: map<Bytes32, ChallengeRow>, handshakes: map<Bytes32, Handshake>, audit: seq<AuditRow>)

  const EMPTY := Store(map[], map[], [])

  function RowOf(c: Challenge): ChallengeRow {
    ChallengeRow(c.kernelInstance, c.targetInstance, c.targetKeyId, c.issuedAt, c.expiresAt, None)
  }

  function InsertChallenge(s: Store, digest: Bytes32, c: Challenge): (Store, Option<HandshakeError>) {
    if digest in s.challenges || c.issuedAt < 0 || c.expiresAt <= c.issuedAt then (s, Some(RepositoryFailure))
    else
      (s.(challenges := s.challenges[digest := RowOf(c)],
          audit := s.audit + [AuditRow(digest, c.kernelInstance, c.targetInstance, Issued, c.issuedAt)]), None)
  }

  predicate Consumable(s: Store, h: Handshake) {
    h.digest in s.challenges && s.challenges[h.digest].kernel == h.kernel && s.challenges[h.digest].target == h.target &&
    s.challenges[h.digest].consumedAt.None? && s.challenges[h.digest].expiresAt > h.verifiedAt
  }

  function Complete(s: Store, h: Handshake): (Store, Option<HandshakeError>) {
    if !Consumable(s, h) then (s, Some(ChallengeAlreadyUsed))
    else if h.verifiedAt < s.challenges[h.digest].issuedAt || h.digest in s.handshakes
         || h.verifiedAt < 0 || h.expiresAt <= h.verifiedAt
      then (s, Some(RepositoryFailure))
    else
      (Store(s.challenges[h.digest := s.challenges[h.digest].(consumedAt := Some(h.verifiedAt))],
             s.handshakes[h.digest := h],
             s.audit + [AuditRow(h.digest, h.kernel, h.target, Verified, h.verifiedAt)]), None)
  }

  /** Issuing stores one unconsumed challenge and one audit row, or nothing when the digest is known or the times are wrong. */
  lemma InsertedExactly(s: Store, digest: Bytes32, c: Challenge)
    ensures var (s', error) := InsertChallenge(s, digest, c);
            (error == None || error == Some(RepositoryFailure)) &&
            (error == None <==> digest !in s.challenges && 0 <= c.issuedAt < c.expiresAt) &&
            (error.Some? ==> s' == s) &&
            (error.None? ==>
               s'.handshakes == s.handshakes && s'.challenges.Keys == s.challenges.Keys + {digest} &&
               (forall d | d in s.challenges :: s'.challenges[d] == s.challenges[d]) &&
               s'.challenges[digest] == ChallengeRow(
                 kernel := c.kernelInstance, target := c.targetInstance, targetKey := c.targetKeyId,
                 issuedAt := c.issuedAt, expiresAt := c.expiresAt, consumedAt := None) &&
               s'.audit == s.audit + [AuditRow(
                 digest := digest, kernel := c.kernelInstance, target := c.targetInstance,
                 action := Issued, recordedAt := c.issuedAt)])
  {
  }

  /** Completing consumes the challenge, stores the handshake and audits it, or does none of the three. */
  lemma CompletedExactly(s: Store, h: Handshake)
    ensures var (s', error) := Complete(s, h);
            var open := h.digest in s.challenges && s.challenges[h.digest].kernel == h.kernel &&
                        s.challenges[h.digest].target == h.target && s.challenges[h.digest].consumedAt == None &&
                        h.verifiedAt < s.challenges[h.digest].expiresAt;
            var storable := open && s.challenges[h.digest].issuedAt <= h.verifiedAt < h.expiresAt &&
                            0 <= h.verifiedAt && h.digest !in s.handshakes;
            (error == Some(ChallengeAlreadyUsed) <==> !open) &&
            (error == Some(RepositoryFailure) <==> open && !storable) &&
            (error == None <==> storable) && (error.Some? ==> s' == s) &&
            (error.None? ==>
               s'.handshakes == s.handshakes[h.digest := h] &&
               s'.challenges == s.challenges[h.digest := s.challenges[h.digest].(consumedAt := Some(h.verifiedAt))] &&
               s'.audit == s.audit + [AuditRow(
                 digest := h.digest, kernel := h.kernel, target := h.target, action := Verified, recordedAt := h.verifiedAt)])
  {
  }

  predicate FreshAt(h: Handshake, now: i64) { h.verifiedAt <= now < h.expiresAt }

  function FreshRows(s: Store, kernel: Uuid, target: Uuid, now: i64): set<Handshake> {
    set d | d in s.handshakes && s.handshakes[d].kernel == kernel && s.handshakes[d].target == target &&
            FreshAt(s.handshakes[d], now) :: s.handshakes[d]
  }

  /** `ORDER BY verified_at DESC`: which of several latest rows comes first is the database's choice. */
  function Latest(rows: set<Handshake>): set<Handshake> {
    set h | h in rows && forall other | other in rows :: other.verifiedAt <= h.verifiedAt
  }

  type Choice = set<Handshake> -> Handshake

  ghost predicate Chooses(choice: Choice) { forall rows: set<Handshake> | rows != {} :: choice(rows) in rows }

  function FindFresh(s: Store, choice: Choice, kernel: Uuid, target: Uuid, now: i64): Result<Option<Handshake>, HandshakeError> {
    if now < 0 then Err(InvalidTimestamp)
    else if FreshRows(s, kernel, target, now) == {} then Ok(None)
    else
      match Restore(choice(Latest(FreshRows(s, kernel, target, now))))
      case Err(error) => Err(error)
      case Ok(h) => Ok(Some(h))
  }

  function RequireFresh(s: Store, choice: Choice, kernel: Uuid, target: Uuid, now: i64): Result<Handshake, HandshakeError> {
    match FindFresh(s, choice, kernel, target, now)
    case Err(error) => Err(error)
    case Ok(None) => Err(HandshakeRequired(target))
    case Ok(Some(h)) => Ok(h)
  }

  lemma {:induction false} LatestExists(rows: set<Handshake>)
    requires rows != {}
    ensures Latest(rows) != {}
  {
    var h :| h in rows;
    if rows == {h} {
      assert h in Latest(rows);
    } else {
      LatestExists(rows - {h});
      var l :| l in Latest(rows - {h});
      if l.verifiedAt <= h.verifiedAt {
        assert h in Latest(rows);
      } else {
        assert l in Latest(rows);
      }
    }
  }

  /** The answer is a stored row for this pair that is fresh now, and none of them is newer. */
  lemma FoundIsFresh(s: Store, choice: Choice, kernel: Uuid, target: Uuid, now: i64)
    requires Chooses(choice) && RequireFresh(s, choice, kernel, target, now).Ok?
    ensures var h := RequireFresh(s, choice, kernel, target, now).value;
            h in FreshRows(s, kernel, target, now) &&
            forall other | other in FreshRows(s, kernel, target, now) :: other.verifiedAt <= h.verifiedAt
  {
    var rows := FreshRows(s, kernel, target, now);
    hide FreshRows;
    LatestExists(rows);
    assert choice(Latest(rows)) in Latest(rows);
  }

  // ---- Any number of kernels at once: one step is one transaction ----

  datatype Flight = Flight(kernel: PublicKey, target: RegisteredInstance, issued: SignedChallenge)

  /** `flights` are the challenges stored so far with what their issuer knew, `answers` the exchanges that completed one. */
  datatype State = State(store: Store, flights: map<Bytes32, Flight>, answers: map<Bytes32, Exchange>)

  datatype Event =
    | Begin(kernel: PublicKey, target: RegisteredInstance, now: i64, nonce: Option<Bytes32>)
    | Finish(digest: Bytes32, exchange: Exchange)

  const START := State(EMPTY, map[], map[])

  function Step(crypto: Crypto, s: State, e: Event): State {
    match e
    case Begin(kernel, target, now, nonce) =>
      (match Issue(crypto, kernel, target, now, nonce)
       case Err(_) => s
       case Ok(c) =>
         var digest := DigestOf(crypto, c);
         var (store, error) := InsertChallenge(s.store, digest, c.challenge);
         if error.Some? then s else s.(store := store, flights := s.flights[digest := Flight(kernel, target, c)]))
    case Finish(digest, exchange) =>
      if digest !in s.flights then s
      else
        var f := s.flights[digest];
        match Settle(crypto, f.kernel, f.target, f.issued, exchange)
        case Err(_) => s
        case Ok(h) =>
          var (store, error) := Complete(s.store, h);
          if error.Some? then s else s.(store := store, answers := s.answers[digest := exchange])
  }

  function Run(crypto: Crypto, events: seq<Event>): State {
    if events == [] then START else Step(crypto, Run(crypto, events[..|events| - 1]), events[|events| - 1])
  }

  function Count(audit: seq<AuditRow>, digest: Bytes32, action: Action): nat {
    if audit == [] then 0
    else
      var last := audit[|audit| - 1];
      Count(audit[..|audit| - 1], digest, action) + (if last.digest == digest && last.action == action then 1 else 0)
  }

  /** `t` is the earlier of the two. */
  predicate IsEarlier(t: int, a: int, b: int) { (t == a && a <= b) || (t == b && b <= a) }

  /** What the issuer of a flight saw, and the challenge it made of it. */
  ghost predicate GenuineFlight(crypto: Crypto, digest: Bytes32, f: Flight) {
    var c := f.issued.challenge;
    DigestOf(crypto, f.issued) == digest && c.issuedAt >= 0 && EligibleAt(f.target, c.issuedAt) &&
    c.kernelInstance == f.kernel.instanceId && c.targetInstance == f.target.publicKey.instanceId &&
    c.targetKeyId == f.target.publicKey.keyId &&
    c.issuedAt < c.expiresAt && IsEarlier(c.expiresAt, c.issuedAt + 15, f.target.leaseExpiresAt) &&
    c.kernelService == f.kernel.serviceId && c.kernelKeyId == f.kernel.keyId && c.kernelKey == f.kernel.key &&
    f.issued.signature == crypto.sign(f.kernel, ChallengeMessage(c))
  }

  /** The exchange that completed a flight, and the record it left: thirty seconds, within the lease seen at issue. */
  ghost predicate GenuineHandshake(crypto: Crypto, f: Flight, x: Exchange, h: Handshake) {
    var c, r := f.issued.challenge, x.response;
    h.digest == DigestOf(crypto, f.issued) && h.kernel == f.kernel.instanceId &&
    h.target == f.target.publicKey.instanceId && h.targetKey == f.target.publicKey.keyId &&
    r.response == Response(h.kernel, h.target, h.targetKey, h.digest) &&
    crypto.verifies(f.target.publicKey.key, ResponseMessage(r.response), r.signature) &&
    h.verifiedAt == x.receivedAt && c.issuedAt <= h.verifiedAt < c.expiresAt && h.verifiedAt < h.expiresAt &&
    IsEarlier(h.expiresAt, h.verifiedAt + 30, f.target.leaseExpiresAt)
  }

  ghost predicate SoundAt(crypto: Crypto, s: State, d: Bytes32) {
    (d in s.store.challenges <==> d in s.flights) &&
    (d in s.store.handshakes <==> d in s.answers) &&
    (d in s.answers ==> d in s.flights) &&
    Count(s.store.audit, d, Issued) == (if d in s.flights then 1 else 0) &&
    Count(s.store.audit, d, Verified) == (if d in s.answers then 1 else 0) &&
    (d in s.flights ==>
       GenuineFlight(crypto, d, s.flights[d]) &&
       s.store.challenges[d] == RowOf(s.flights[d].issued.challenge).(
         consumedAt := if d in s.answers then Some(s.store.handshakes[d].verifiedAt) else None)) &&
    (d in s.answers ==> GenuineHandshake(crypto, s.flights[d], s.answers[d], s.store.handshakes[d]))
  }

  ghost predicate Sound(crypto: Crypto, s: State) { forall d :: SoundAt(crypto, s, d) }

  lemma CountAfter(audit: seq<AuditRow>, a: AuditRow, d: Bytes32, action: Action)
    ensures Count(audit + [a], d, action) ==
            Count(audit, d, action) + (if a.digest == d && a.action == action then 1 else 0)
  {
    assert (audit + [a])[..|audit|] == audit;
  }

  lemma IssuedIsGenuine(crypto: Crypto, kernel: PublicKey, target: RegisteredInstance, now: i64, nonce: Option<Bytes32>)
    requires Issue(crypto, kernel, target, now, nonce).Ok?
    ensures var c := Issue(crypto, kernel, target, now, nonce).value;
            GenuineFlight(crypto, DigestOf(crypto, c), Flight(kernel, target, c))
  {
    hide ChallengeMessage;
  }

  lemma SettledIsGenuine(crypto: Crypto, d: Bytes32, f: Flight, e: Exchange)
    requires GenuineFlight(crypto, d, f) && Settle(crypto, f.kernel, f.target, f.issued, e).Ok?
    ensures GenuineHandshake(crypto, f, e, Settle(crypto, f.kernel, f.target, f.issued, e).value)
    ensures Settle(crypto, f.kernel, f.target, f.issued, e).value.digest == d
  {
    hide ChallengeMessage, ResponseMessage;
  }

  lemma BeginKeepsSound(crypto: Crypto, s: State, digest: Bytes32, f: Flight, d: Bytes32)
    requires SoundAt(crypto, s, d) && SoundAt(crypto, s, digest) && GenuineFlight(crypto, digest, f)
    requires InsertChallenge(s.store, digest, f.issued.challenge).1.None?
    ensures SoundAt(crypto, s.(store := InsertChallenge(s.store, digest, f.issued.challenge).0,
                               flights := s.flights[digest := f]), d)
  {
    hide GenuineFlight, GenuineHandshake, Count, DigestOf;
    var c := f.issued.challenge;
    var a := AuditRow(digest, c.kernelInstance, c.targetInstance, Issued, c.issuedAt);
    CountAfter(s.store.audit, a, d, Issued);
    CountAfter(s.store.audit, a, d, Verified);
  }

  lemma FinishKeepsSound(crypto: Crypto, s: State, digest: Bytes32, x: Exchange, h: Handshake, d: Bytes32)
    requires SoundAt(crypto, s, d) && SoundAt(crypto, s, digest) && digest in s.flights && h.digest == digest
    requires GenuineHandshake(crypto, s.flights[digest], x, h) && Complete(s.store, h).1.None?
    ensures SoundAt(crypto, s.(store := Complete(s.store, h).0, answers := s.answers[digest := x]), d)
  {
    hide GenuineFlight, GenuineHandshake, Count, DigestOf;
    var a := AuditRow(digest, h.kernel, h.target, Verified, h.verifiedAt);
    CountAfter(s.store.audit, a, d, Issued);
    CountAfter(s.store.audit, a, d, Verified);
  }

  lemma StepKeepsSound(crypto: Crypto, s: State, e: Event, d: Bytes32)
    requires Sound(crypto, s)
    ensures SoundAt(crypto, Step(crypto, s, e), d)
  {
    hide Issue, Settle, InsertChallenge, Complete, GenuineFlight, GenuineHandshake, Count, DigestOf;
    assert SoundAt(crypto, s, d);
    match e
    case Begin(kernel, target, now, nonce) =>
      var issued := Issue(crypto, kernel, target, now, nonce);
      if issued.Ok? {
        var c := issued.value;
        var digest := DigestOf(crypto, c);
        assert SoundAt(crypto, s, digest);
        hide SoundAt, Sound;
        IssuedIsGenuine(crypto, kernel, target, now, nonce);
        if InsertChallenge(s.store, digest, c.challenge).1.None? {
          BeginKeepsSound(crypto, s, digest, Flight(kernel, target, c), d);
        }
      }
    case Finish(digest, exchange) =>
      if digest in s.flights {
        assert SoundAt(crypto, s, digest);
        var f := s.flights[digest];
        FlightIsGenuine(crypto, s, digest);
        hide SoundAt, Sound;
        var settled := Settle(crypto, f.kernel, f.target, f.issued, exchange);
        if settled.Ok? && Complete(s.store, settled.value).1.None? {
          SettledIsGenuine(crypto, digest, f, exchange);
          FinishKeepsSound(crypto, s, digest, exchange, settled.value, d);
        }
      }
  }

  lemma FlightIsGenuine(crypto: Crypto, s: State, d: Bytes32)
    requires SoundAt(crypto, s, d) && d in s.flights
    ensures GenuineFlight(crypto, d, s.flights[d])
  {
  }

  lemma {:induction false} RunsAreSound(crypto: Crypto, events: seq<Event>)
    ensures Sound(crypto, Run(crypto, events))
  {
    if events == [] {
      forall d ensures SoundAt(crypto, START, d) {}
    } else {
      var before := Run(crypto, events[..|events| - 1]);
      RunsAreSound(crypto, events[..|events| - 1]);
      forall d ensures SoundAt(crypto, Run(crypto, events), d) {
        StepKeepsSound(crypto, before, events[|events| - 1], d);
      }
    }
  }

  /**
   * `h` records that the target answered, with the key the issuer saw, a challenge that this kernel issued to it at
   * most 43 seconds ago, within the lease the issuer saw; the challenge was consumed exactly once.
   */
  ghost predicate Answered(crypto: Crypto, s: State, h: Handshake, kernel: Uuid, target: Uuid, now: i64) {
    h.digest in s.flights && h.digest in s.answers &&
    var f, r := s.flights[h.digest], s.answers[h.digest].response;
    var c := f.issued.challenge;
    f.kernel.instanceId == kernel && f.target.publicKey.instanceId == target && EligibleAt(f.target, c.issuedAt) &&
    crypto.verifies(f.target.publicKey.key, ResponseMessage(r.response), r.signature) &&
    r.response.challengeDigest == DigestOf(crypto, f.issued) &&
    c.issuedAt <= h.verifiedAt <= now <= c.issuedAt + 43 && now < f.target.leaseExpiresAt &&
    Count(s.store.audit, h.digest, Issued) == 1 && Count(s.store.audit, h.digest, Verified) == 1
  }

  lemma ChallengeLife(crypto: Crypto, s: State, d: Bytes32)
    requires SoundAt(crypto, s, d) && d in s.store.challenges
    ensures d in s.flights &&
            IsEarlier(s.store.challenges[d].expiresAt, s.store.challenges[d].issuedAt + 15, s.flights[d].target.leaseExpiresAt)
  {
    hide Count, DigestOf, ChallengeMessage, ResponseMessage, IsEarlier, EligibleAt, GenuineHandshake;
  }

  lemma HandshakeLife(crypto: Crypto, s: State, d: Bytes32)
    requires SoundAt(crypto, s, d) && d in s.store.handshakes
    ensures d in s.flights && d in s.answers && s.store.handshakes[d].verifiedAt == s.answers[d].receivedAt &&
            IsEarlier(s.store.handshakes[d].expiresAt, s.store.handshakes[d].verifiedAt + 30, s.flights[d].target.leaseExpiresAt)
  {
    hide Count, DigestOf, ChallengeMessage, ResponseMessage, IsEarlier, EligibleAt, GenuineFlight;
  }

  /** In every reachable state a stored challenge lives fifteen seconds and a stored handshake thirty, within the lease. */
  lemma LifetimesAreExact(crypto: Crypto, events: seq<Event>, d: Bytes32)
    ensures var s := Run(crypto, events);
            (d in s.store.challenges ==>
               d in s.flights &&
               IsEarlier(s.store.challenges[d].expiresAt, s.store.challenges[d].issuedAt + 15, s.flights[d].target.leaseExpiresAt)) &&
            (d in s.store.handshakes ==>
               d in s.flights && d in s.answers && s.store.handshakes[d].verifiedAt == s.answers[d].receivedAt &&
               IsEarlier(s.store.handshakes[d].expiresAt, s.store.handshakes[d].verifiedAt + 30, s.flights[d].target.leaseExpiresAt))
  {
    hide Run, SoundAt, IsEarlier;
    RunsAreSound(crypto, events);
    var s := Run(crypto, events);
    assert SoundAt(crypto, s, d);
    if d in s.store.challenges { ChallengeLife(crypto, s, d); }
    if d in s.store.handshakes { HandshakeLife(crypto, s, d); }
  }

  /** In any reachable state, who is let through has answered. */
  lemma FreshMeansAnswered(crypto: Crypto, events: seq<Event>, choice: Choice, kernel: Uuid, target: Uuid, now: i64)
    requires Chooses(choice) && RequireFresh(Run(crypto, events).store, choice, kernel, target, now).Ok?
    ensures var s := Run(crypto, events);
            Answered(crypto, s, RequireFresh(s.store, choice, kernel, target, now).value, kernel, target, now)
  {
    var s := Run(crypto, events);
    RunsAreSound(crypto, events);
    FoundIsFresh(s.store, choice, kernel, target, now);
    var h := RequireFresh(s.store, choice, kernel, target, now).value;
    var d :| d in s.store.handshakes && s.store.handshakes[d] == h;
    assert SoundAt(crypto, s, d);
    hide Run, RequireFresh, Sound, Count, Chooses;
  }

  /** No stored record is ever unreadable, so a fresh row is always enough. */
  lemma FreshRowIsEnough(crypto: Crypto, events: seq<Event>, choice: Choice, kernel: Uuid, target: Uuid, now: i64)
    requires Chooses(choice) && now >= 0
    ensures RequireFresh(Run(crypto, events).store, choice, kernel, target, now).Ok? <==>
            FreshRows(Run(crypto, events).store, kernel, target, now) != {}
    ensures RequireFresh(Run(crypto, events).store, choice, kernel, target, now).Err? ==>
              RequireFresh(Run(crypto, events).store, choice, kernel, target, now) == Err(HandshakeRequired(target))
  {
    var s := Run(crypto, events);
    var rows := FreshRows(s.store, kernel, target, now);
    RunsAreSound(crypto, events);
    if rows != {} {
      LatestExists(rows);
      var h := choice(Latest(rows));
      assert h in rows;
      var d :| d in s.store.handshakes && s.store.handshakes[d] == h;
      assert SoundAt(crypto, s, d);
      hide Run, Sound, Count, Chooses;
    }
  }

  /** The time of a lookup is refused exactly when it is negative. */
  lemma LookupNeedsTime(s: Store, choice: Choice, kernel: Uuid, target: Uuid, now: i64)
    ensures FindFresh(s, choice, kernel, target, now) == Err(InvalidTimestamp) <==> now < 0
    ensures RequireFresh(s, choice, kernel, target, now) == Err(InvalidTimestamp) <==> now < 0
  {
    hide FreshRows, Latest;
  }
}
