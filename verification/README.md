# Verification of the infernal-law kernel

infernal-law is a governance kernel: append-only tables changed by short transactions, behind a boundary that only
lets signed requests through. This project models its protocols as step machines over explicit tables, and its codecs
as functions on text and bytes, and proves what the source and its documentation promise of them.

Six parts, each over all inputs and all runs:

- **Replay protection and idempotent acceptance.** `ReplayTables`, `ReplayInterleaving` and `ReplayHistory` take the
  reservation transaction statement by statement, with blocking inserts and roll-backs. `Gate`, `Requests`,
  `Submission` and `SubmitHandler` put the gate, the request repository and routing together.
- **Work claims.** `WorkClaims` and `ClaimSafety` for leases and fencing tokens, `Eligibility` for the query that must
  agree with `claim` although it reads three times.
- **Signed messages.** `Text` and `ServiceRequests` for the HTTP signature profile, `FieldEncoding` for length-prefixed
  messages and the separation of the four protocols that share one key.
- **The HTTP reader.** `HttpHead` and `HttpReader`: an incremental loop against a one-shot parser; `HttpText`: what that
  reads, said of the text alone.
- **Handshakes and leases.** `Instances`, `Handshakes`, `HandshakeReconciler`, `InstanceRegistry` and `RenewalFailures`.
- **Administration and routing.** `Admission`, `RegistrarPlan` and `Registrar`, `Routes` and `ActionNames`.

`Foundations` holds bytes, UUIDs, 64-bit integers and the result types. Objects the source updates in place are classes
whose methods are proved equal to a function of the old tables; the theorems are about those functions and about runs
of them. Clocks are arguments of each call and may go backwards unless a lemma says otherwise. SHA-256, Ed25519,
Base64, the UUID reader, JSON decoding, whitespace and UTF-8 decoding are parameters: where a law is needed it is a
hypothesis (section 4 of RFC 4648 for Base64; `ServiceRequests.LawsAreConsistent` shows the laws can be met), and
collision freedom is asked only of the messages compared.

What the proofs found in the code:

- A renewal of a work claim whose new lease end is not later than the old one passes every check of the service and the
  repository and is refused only by the row trigger, so the caller sees a repository error
  (`ClaimSafety.HolderAnsweredExactly`).
- The catch-all of the lease-renewal classifier is reachable when commits fall between the update and the classifier's
  read, for exactly the callers and tables `RenewalFailures.LastBranchExactly` describes; a caller whose expected
  revision the table had reached is never among them.
- The registrar's own description says a second run changes nothing. That holds of identities, bindings, flags and
  grants (`Registrar.Database.RunTwice`), but every complete pass appends one row a service to the admission history,
  all no-ops exactly when the switches already agree (`Registrar.LogAllNoOpExactly`).
- The routes' key omits the source, so a request can be answered with another source's routes; exactly when is
  `Routes.OwnRoutesExactly`.
- The answer to an HTTP request can depend on how its bytes arrive; exactly when is `HttpReader.PiecesMatterExactly`.

`dafny verify dfyconfig.toml` checks the whole project.

## Model

| member | source | states |
|---|---|---|
| ReplayTables.ReplayProtectionRepository.Reserve | src/infrastructure/postgres_replay_protection_repository.rs:24-114 | One reservation, statement by statement: an early commit for a seen nonce, insert-or-keep of the request ID, the stored fingerprint compared, one audit row on every path; nothing else changes |
| ReplayInterleaving.InterleavingIsSerializable | src/infrastructure/postgres_replay_protection_repository.rs:24-114 | For any number of calls interleaved one statement at a time, with blocking inserts and roll-backs at any point, the committed rows and every committed answer are those of running the committed calls one at a time in commit order |
| ReplayInterleaving.RunKeepsInvariant | src/infrastructure/postgres_replay_protection_repository.rs:24-114 | In every reachable interleaved state, no key is held by two open transactions and all that an open transaction has read is still true of the committed rows |
| ReplayInterleaving.NoWaitCycle | src/infrastructure/postgres_replay_protection_repository.rs:34-70 | Every call takes its nonce key before its request-ID key, so no chain of waits closes or is longer than two |
| ReplayInterleaving.NeverStuck | src/infrastructure/postgres_replay_protection_repository.rs:34-70 | While a call is open, some open call can execute its next statement: no deadlock |
| ReplayInterleaving.StatementsDoNotRollBack | src/infrastructure/postgres_replay_protection_repository.rs:60-97 | In a reachable state no statement of the transaction rolls its call back: only an outside failure does |
| ReplayInterleaving.RunsTerminate | src/infrastructure/postgres_replay_protection_repository.rs:24-114 | A run has at most six steps a call, and one that cannot go on has committed or rolled back every call |
| ReplayHistory.AnswersFollowHistory | src/infrastructure/postgres_replay_protection_repository.rs:34-113 | The answer of every call, both directions, from the earlier calls alone and no table: a replay iff its nonce came before under its key, fresh iff it binds its request ID, else a safe retry or a conflict as the bound fingerprint equals its own or not |
| ReplayHistory.ResultsFollowHistory | src/infrastructure/postgres_replay_protection_repository.rs:34-113 | What the caller is told and the audit row left, field by field, from the calls alone: replay detected iff the nonce was presented before under its key, fresh iff the call binds its request ID, else retried or conflicting as the bound fingerprint is its own or not |
| ReplayHistory.CommittedCallsAreTold | src/infrastructure/postgres_replay_protection_repository.rs:24-114 | The same for every committed call of any interleaved run, at its place in commit order |
| ReplayHistory.RowsAreTheirCalls | src/infrastructure/postgres_replay_protection_repository.rs:34-70 | Each stored nonce row is the very reservation that used the nonce first, each request-ID row carries the fingerprint and time of the call that bound it |
| ReplayHistory.NonceConsumedOnce | migrations/0006_service_request_replay_protection.sql:9-21 | In any interleaved run, two committed calls that were not refused as replays never share a key and nonce |
| ReplayHistory.AdmittedCallsAgree | migrations/0006_service_request_replay_protection.sql:1-7 | In any interleaved run, all calls admitted for one service and request ID carry one fingerprint, and at most one of them was fresh |
| ReplayHistory.RowsAreCounted | src/infrastructure/postgres_replay_protection_repository.rs:34-113 | Nonce rows number the fresh, safe-retry and conflict audit rows together; request-ID rows number the fresh ones |
| ReplayHistory.InterleavedRowsAreCounted | src/infrastructure/postgres_replay_protection_repository.rs:34-113 | The same counts at the end of any interleaved run |
| ReplayHistory.RowsAreImmutable | migrations/0006_service_request_replay_protection.sql:40-67 | No later call alters or loses a stored nonce, a stored fingerprint or an audit row |
| Gate.VerifiedIsReservable | src/kernel/replay_protection.rs:27-48 | A signature that passes verification at an instant also passes the reservation window at that instant |
| Gate.AdmitMeans | src/kernel/request_gate.rs:115-137 | The gate never fails with an invalid reservation time, admits only between five seconds before and thirty-five seconds after signed creation, admits iff all three checks pass, and writes nothing for a signature that does not verify |
| Gate.AdmitBinds | src/kernel/request_gate.rs:115-137 | Every request admitted is verified and bound, for good, to its own fingerprint under its service and request ID |
| Gate.AdmittedExactly | src/kernel/request_gate.rs:115-137 | Why the gate refuses, which reservation it makes field by field, and that an admitted request carries the verified values, the disposition told by replay protection and the admission revision read |
| Requests.RequestRepository.AcceptRequest | src/infrastructure/postgres_request_repository.rs:48-116 | Insert-or-compare with its audit rows: first acceptance, identical retry, conflict, or a violated reference that leaves nothing |
| Requests.RecordsArePermanent | src/infrastructure/postgres_request_repository.rs:86-115 | A stored record is never altered; an Ok answer is the stored record; a conflict is reported iff the stored content or fingerprint differs |
| Requests.AcceptedExactly | src/infrastructure/postgres_request_repository.rs:48-116 | Each error and each acceptance iff its cause, and the one audit row a call leaves unless a reference was missing |
| Submission.SubmitNeverConflicts | src/http.rs:1171-1228 | For a call admitted by the gate, in any reachable state of both layers, the request repository never answers with a request-ID conflict |
| Submission.RunKeepsInvariant | src/http.rs:572-646 | Over any interleaving of gate and submission steps, with keys, clocks, policy and references free to differ at every step, every admitted call stays bound and every stored record is what an accepted call asked for |
| Submission.SubmissionsAreIdempotent | src/http.rs:572-646 | Over any such run no call gets a conflict, all calls of one service and request ID that get a record get the same record, and exactly one of them is the acceptance |
| Submission.PolicyDecides | src/http.rs:1183-1228 | Not authorized iff the body reads and the policy denied, internal error iff it reads and the policy was unavailable, stored or rejected only if it allowed; the store differs only then |
| Submission.SubmissionsExactly | src/http.rs:1151-1161 | The handler serves a POST of this one path, with or without a query |
| Submission.StoredByPermission | src/http.rs:1208-1215 | Over any run only submissions are answered, and every stored record was put there by a call whose step the policy allowed |
| SubmitHandler.SubmitRequest | src/http.rs:1171-1249 | The handler effect by effect: media type, body, policy, acceptance, then routing, whose failure never changes the answer |
| SubmitHandler.OnlyAllowedCallsAct | src/http.rs:1208-1215 | Neither the store nor the routes change unless the policy allowed the call, and no route is made for a call that is not answered with a record |
| SubmitHandler.RoutesAreTheCallers | src/http.rs:1229-1249 | Every route a call adds carries its caller as source, its request ID, an active subscription to its action and that subscription's service as destination |
| SubmitHandler.RetryRepairsRouting | src/http.rs:1229-1249 | However routing failed the first time, an allowed retry answers with the same stored record, keeps every route and leaves one for each subscription active at the retry, of its own source iff none of another was stored before |
| WorkClaims.WorkClaimRepository.ClaimRoute | src/infrastructure/postgres_work_claim_repository.rs:67-148 | A claim under its route lock: refusals in order, a lapsed claim marked expired, the next token inserted, subject to the table constraints and the row trigger |
| WorkClaims.WorkClaimRepository.RenewClaim | src/infrastructure/postgres_work_claim_repository.rs:150-166 | A renewal of the locked current claim, or the error of the first check that fails |
| WorkClaims.WorkClaimRepository.MoveTo | src/infrastructure/postgres_work_claim_repository.rs:245-266 | Release and completion of the locked current claim |
| ClaimSafety.ReachableTablesAreSound | src/infrastructure/postgres_work_claim_repository.rs:99-147 | In every reachable table the tokens of a route are 1 to n in order of insertion, IDs are unique, and every claim but the newest of its route is released or expired |
| ClaimSafety.TokensAreConsecutive | migrations/0017_work_claims.sql:1-17 | The k-th claim ever made on a route has token k: no gap, no repeat |
| ClaimSafety.AtMostOneCurrent | src/kernel/work_claims.rs:154-156 | At every instant at most one claim of a route is current |
| ClaimSafety.ClaimGrantedExactly | src/infrastructure/postgres_work_claim_repository.rs:99-147 | On a reachable table a claim with valid arguments and an unused ID is granted iff the route is the caller's and its newest claim, if any, is neither current nor completed; it then gets the next token, and no other route's rows change |
| ClaimSafety.HolderAnsweredExactly | src/infrastructure/postgres_work_claim_repository.rs:245-283 | Renew, release and complete on a known claim: what each answers, and when; a renewal that does not lengthen the lease is the only one refused by the row trigger |
| ClaimSafety.UnknownClaimIsNotFound | src/infrastructure/postgres_work_claim_repository.rs:268-276 | An unknown claim ID is reported as such and changes nothing |
| ClaimSafety.RunAdvances | migrations/0017_work_claims.sql:19-48 | Over any run a claim keeps its identity and token, leaves the active status at most once, and its lease never shrinks |
| ClaimSafety.LostClaimStaysFenced | src/kernel/work_claims.rs:248-304 | Once a claim is no longer active, every later renew, release or complete on it is fenced, whatever else happens and however the clock moves |
| ClaimSafety.GrantFencesEarlierClaims | src/infrastructure/postgres_work_claim_repository.rs:104-147 | A granted claim fences every earlier claim on its route for good |
| ClaimSafety.CompletedRouteStaysCompleted | src/infrastructure/postgres_work_claim_repository.rs:113-120 | No claim is ever granted on a completed route |
| ClaimSafety.CompletesOnce | src/infrastructure/postgres_work_claim_repository.rs:245-283 | Over any run, two successful completions are of different routes |
| ClaimSafety.RowsAreTheGrants | src/infrastructure/postgres_work_claim_repository.rs:67-148 | At the end of any run a route has exactly one row for each claim granted on it |
| ClaimSafety.RoutesAreThoseAdded | migrations/0016_request_routes.sql:1-12 | The routes of a run are those it added, each with the destination it was first added with |
| Eligibility.ReadsDecideClaimable | src/infrastructure/postgres_work_claim_repository.rs:50-53 | On a reachable table the active read and the completed read together say exactly whether a claim would be granted |
| Eligibility.ClaimAnsweredExactly | src/infrastructure/postgres_work_claim_repository.rs:67-148 | Every answer to a claim from the rows alone: bad arguments, not its route, a current claim, a completed one, a taken ID, or the next token |
| Eligibility.EligibleRoutesExactly | src/http.rs:379-406 | With any claim steps between the separate reads, the query returns exactly the listed routes claimable at the active read and not completed by the completed read |
| Eligibility.UndisturbedQueryIsExact | src/http.rs:379-406 | With nothing in between, a route is returned iff a claim on it by that destination would succeed |
| Eligibility.SwappedReadsOfferCompletedRoutes | src/http.rs:389-398 | Why the active read comes first: in the other order a completion in between yields a route no claim can ever get |
| Eligibility.WithoutJoins | src/http.rs:399-405 | The answer keeps the order of the listing |
| ServiceRequests.TargetUriRecovered | src/kernel/service_requests.rs:60-89 | Valid authority and path can both be recovered from the target URI text |
| ServiceRequests.SignatureBaseInjective | src/kernel/service_requests.rs:406-424 | Equal signature bases on validated parts force equal method, authority, path, digest, content type, service, instance, request ID and parameters (section 2.5 of RFC 9421) |
| ServiceRequests.SignatureCoversRequest | src/kernel/service_requests.rs:290-342 | Two verified requests over one signed text are the same request with the same verification result, up to a collision of the body digest |
| ServiceRequests.FingerprintTextInjective | src/kernel/service_requests.rs:430-443 | The replay fingerprint's text determines method, URI, digest, content type and service |
| ServiceRequests.FingerprintBindsBody | src/kernel/service_requests.rs:430-443 | Two verified requests with one fingerprint carry the same method, URI, content type and body, up to a digest collision between these two |
| ServiceRequests.ParseUndoesPrint | src/kernel/service_requests.rs:344-387 | Reading undoes printing of the signature parameters for every valid creation time, expiry, nonce and key ID (section 2.3 of RFC 9421) |
| ServiceRequests.AcceptedLanguage | src/kernel/service_requests.rs:350-387 | The accepted signature inputs, both directions: the fixed text around any spellings that read as valid values |
| ServiceRequests.AcceptedInputReprints | src/kernel/service_requests.rs:350-387 | Any accepted input re-prints to text that reads as the same four values |
| ServiceRequests.AcceptedTextIsNotUnique | src/kernel/service_requests.rs:488-495 | The text itself need not match: a leading zero is accepted with the same meaning |
| ServiceRequests.SignatureTextIsCanonical | src/kernel/service_requests.rs:389-404 | Exactly one header text is accepted for each 64-byte signature |
| ServiceRequests.SignedRequestVerifies | src/kernel/service_requests.rs:115-147 | A request signed with a registered key verifies, with exactly the signed values, iff the clock is within five seconds of the signed window |
| ServiceRequests.StaleOutsideWindow | src/kernel/service_requests.rs:474-486 | The saturating time check is the plain window on all 64-bit inputs |
| ServiceRequests.VerifiesExactly | src/kernel/service_requests.rs:290-342 | A request verifies iff its parameters are readable, the clock is in the signed window, the registered key is the one named, the digest is that of the body, and the signature is a canonical 64 bytes that the key verifies over the eight lines written out; it then yields exactly what these say, the fingerprint being the digest of the first five lines |
| ServiceRequests.RefusedExactly | src/kernel/service_requests.rs:290-342 | Otherwise the error is that of the first check it fails |
| ServiceRequests.SignedTextIs | src/kernel/service_requests.rs:406-443 | The signed text is the eight lines written out, name by name and value by value, and the fingerprint text is the first five of them |
| ServiceRequests.SignedTextSplits | src/kernel/service_requests.rs:406-424 | Split at its newlines, the signed text of a valid request is exactly these eight lines |
| ServiceRequests.CoveredComponentsAreTheLines | src/kernel/service_requests.rs:25 | The parameters list the names of the first seven lines, in their order |
| ServiceRequests.SignsTheseTexts | src/kernel/service_requests.rs:115-147 | What a signer sends, written out: digest, parameters and signature texts, or the refusal of bad metadata |
| ServiceRequests.ValidPartsExactly | src/kernel/service_requests.rs:60-73 | Which method, authority, path and content type are accepted, by the codes of their characters |
| ServiceRequests.ValidMetadataExactly | src/kernel/service_requests.rs:456-472 | Which creation times, expiries and nonces are accepted: thirty seconds at most, 16 to 128 characters of a fixed alphabet |
| Text.SplitOnceFinds | src/kernel/service_requests.rs:356-380 | A split finds the intended separator when the left part lacks its first character |
| Text.PrintedNatReadsBack | src/kernel/service_requests.rs:488-495 | Decimal digits read back as the number printed |
| Text.PrintedUuidIdentifies | src/kernel/service_requests.rs:412-420 | The canonical text of a UUID identifies it |
| Text.PrintedUuidIs | src/kernel/service_requests.rs:412-420 | It is the 32 lower-case hexadecimal digits with hyphens after the 8th, 12th, 16th and 20th |
| FieldEncoding.EncodeFieldList | src/kernel/handshakes.rs:478-485 | The growing message of the loop is the encoding of the list |
| FieldEncoding.EncodingInjective | src/kernel/handshakes.rs:478-485 | Length-prefixed encoding determines the field list, whatever the two lengths, when fields are shorter than 2^32 bytes |
| FieldEncoding.WrappedLengthCollides | src/kernel/handshakes.rs:480-481 | At 2^32 bytes the length wraps and two different lists share one encoding; the messages built here stay below, as the three rows that follow show |
| FieldEncoding.ChallengeRecovered | src/kernel/handshakes.rs:441-461 | A challenge message determines every field of the challenge |
| FieldEncoding.ResponseRecovered | src/kernel/handshakes.rs:463-476 | A response message determines every field of the response |
| FieldEncoding.ProofRecovered | src/kernel/enrollment.rs:407-434 | An enrollment proof message determines every field of the proof |
| FieldEncoding.ChallengeMessageIs | src/kernel/handshakes.rs:441-461 | The challenge message byte by byte: ten fields in order, each after its length in four bytes, times as 64-bit two's complement |
| FieldEncoding.ResponseMessageIs | src/kernel/handshakes.rs:463-476 | The response message likewise |
| FieldEncoding.ProofMessageIs | src/kernel/enrollment.rs:407-434 | The enrollment proof likewise |
| FieldEncoding.ProtocolsAreSeparate | src/kernel/enrollment.rs:407-434 | No byte string is a message of two of: handshake challenge, handshake response, enrollment proof, HTTP signature base |
| FieldEncoding.FingerprintPreimageInjective | src/kernel/requests.rs:478-497 | What the semantic fingerprint hashes determines source, action, scope and both schema versions |
| FieldEncoding.FingerprintPreimageIs | src/kernel/requests.rs:478-497 | And what it is: source, action and scope after their lengths in eight bytes, the two schema versions |
| FieldEncoding.Fingerprint | src/kernel/requests.rs:478-497 | Feeding the hasher field by field yields the digest of that text |
| HttpHead.CollectMeans | src/http.rs:1972-2015 | A header section is accepted iff every line is usable and no recognised field comes twice, and then exactly the values it gives are kept |
| HttpText.WrittenHeadReads | src/http.rs:1952-2023 | A head written as a request line and field lines, with any whitespace around words and values, reads as its verb, its path, the declared length and, for each of the nine names in any spelling, the bare text of its line; refused iff a line is a transfer coding, unusable or doubled, or the length breaks one of the two limits |
| HttpText.OtherHeads | src/http.rs:1952-2023 | No other head is read |
| HttpText.SlotSpelled | src/http.rs:1987-2013 | A slot is filled under every spelling of its name, equal letter by letter up to ASCII case, and under no other name; the same for the transfer coding |
| HttpText.LineMeans | src/http.rs:1980-2014 | A line with a valid name is usable iff it is no transfer coding, a content length is a number below 2^64 and the text for any other slot is not empty; it then fills exactly the slots its name spells with its value freed of outer whitespace |
| HttpText.LengthExactly | src/http.rs:1991-1995 | The lengths read are the decimal numbers below 2^64, after an optional plus sign and leading zeros |
| HttpText.RequestRead | src/http.rs:1930-2050 | From the bytes of the stream alone: what a message followed by a blank line and a body is answered with, however it is cut into pieces while its head is at most 8189 bytes, and uncut at most 8192 |
| HttpText.OtherStreams | src/http.rs:1930-2050 | Every stream that is not such a message is malformed, however it is cut |
| HttpHead.ReadFields | src/http.rs:1972-2015 | The loop over the lines computes that |
| HttpHead.SetSlot | src/http.rs:2052-2058 | A header slot is set once, with a usable value |
| HttpReader.HeaderEndOfPrefix | src/http.rs:2084-2086 | More bytes never move the header end found, and a prefix shows it as soon as it holds the four bytes |
| HttpReader.ReadHeader | src/http.rs:1932-1950 | The header loop, for pieces of any sizes: how much it holds when it stops and what it reports |
| HttpReader.ReadRequest | src/http.rs:1930-2050 | Whatever the pieces, the answer is that of parsing the whole stream at once unless the loop gives up; what is left is a suffix, and no more than 8192+4+40960 bytes are ever held |
| HttpReader.SplitIndependent | src/http.rs:1932-1950 | The pieces make no difference unless the first header end is at offset 8190, 8191 or 8192 |
| HttpReader.BorderlineDependsOnPieces | src/http.rs:1940-1942 | At those three offsets one way of splitting gives the one-shot answer and another a refusal |
| HttpReader.PiecesMatterExactly | src/http.rs:1932-1950 | Two ways of splitting a stream can be answered differently iff the header end is at one of those offsets and the stream is not refused as malformed anyway |
| Handshakes.RestoreNeverRejects | src/kernel/handshakes.rs:205-224 | A response that verifies against an issued challenge always makes a valid record; settling fails otherwise only where the time cannot be added |
| Handshakes.IssuedExactly | src/kernel/handshakes.rs:32-72 | Who is issued a challenge and why not |
| Handshakes.ResponseAnsweredExactly | src/kernel/handshakes.rs:162-190 | Why a response is refused: outside the challenge's life, for another exchange or key, or badly signed; else it is taken |
| Handshakes.CompletedExactly | src/infrastructure/postgres_handshake_repository.rs:55-101 | Each error of a completion iff its cause, and the three writes of one that succeeds, field by field |
| Handshakes.RunsAreSound | src/infrastructure/postgres_handshake_repository.rs:25-101 | With any number of kernels interleaving and repeating transactions: every stored challenge was issued to an eligible instance, every handshake came from a verified response within the challenge's life, and each challenge has one issue row and at most one consumption |
| Handshakes.LifetimesAreExact | src/kernel/handshakes.rs:423-427 | In every reachable state a challenge expires at the earlier of issue plus fifteen seconds and the lease end seen at issue, a handshake at the earlier of receipt plus thirty seconds and that lease end |
| Handshakes.FreshMeansAnswered | src/kernel/handshakes.rs:390-402 | Who is let through answered a challenge this kernel issued to it, with issue no later than verification, verification no later than now, now at most 43 seconds after issue and before the lease end seen at issue, the challenge consumed exactly once |
| Handshakes.FreshRowIsEnough | src/kernel/handshakes.rs:390-402 | A target is let through iff a fresh record is stored for the pair; otherwise a handshake is required |
| Handshakes.FoundIsFresh | src/infrastructure/postgres_handshake_repository.rs:103-132 | The record returned is one of the fresh ones and none of them is newer |
| Handshakes.LookupNeedsTime | src/kernel/handshakes.rs:390-402 | A lookup is refused for its time iff that is negative |
| HandshakeReconciler.Reconciler.ReconcileInstance | src/kernel/handshakes.rs:404-438 | One attempt through the repository: look up, issue, store, exchange, verify, complete |
| HandshakeReconciler.Reconciler.CompleteHandshake | src/infrastructure/postgres_handshake_repository.rs:55-101 | Completion consumes the challenge, stores the record and audits it, or leaves everything as it was |
| HandshakeReconciler.Reconciler.Reconcile | src/kernel/handshakes.rs:370-388 | The loop gives one attempt for each candidate in order, failures included |
| HandshakeReconciler.AttemptsAreIndependent | src/kernel/handshakes.rs:370-388 | For distinct instances each outcome is what that candidate would get alone, whatever happens to the others |
| HandshakeReconciler.PassIsSteps | src/kernel/handshakes.rs:370-388 | A pass over any candidates extends any run of the shared protocol by the transactions it commits |
| HandshakeReconciler.PassesAreSafe | src/kernel/handshakes.rs:370-402 | After any passes by any kernels the tables are those of a sound run, and whoever is then let through has answered a challenge in it |
| HandshakeReconciler.VerifiedExactly | src/kernel/handshakes.rs:404-438 | A target is verified iff it answers well, and its record then lets it through at exactly the instants from receipt until the earlier of thirty seconds later and the lease end |
| HandshakeReconciler.VerifiedIsLetThrough | src/kernel/handshakes.rs:390-402 | So a target verified in any run is let through at each of these instants |
| HandshakeReconciler.FailedExactly | src/kernel/handshakes.rs:404-438 | Why an attempt fails, stage by stage; a failed one has stored at most the challenge it issued, not consumed |
| InstanceRegistry.InstanceRegistryRepository.RegisterVerified | src/kernel/instance_registry.rs:170-183 | Registration with its refusals in order |
| InstanceRegistry.InstanceRegistryRepository.RenewLease | src/infrastructure/postgres_instance_registry.rs:120-166 | Compare-and-set renewal; the catch-all of the failure classifier and the invalid-record error are never the answer |
| InstanceRegistry.InstanceRegistryRepository.RevokeInstance | src/infrastructure/postgres_instance_registry.rs:168-232 | Revocation of the instance and its one key; the unexpected-row-count error is never the answer |
| InstanceRegistry.RegistrationAnsweredExactly | src/infrastructure/postgres_instance_registry.rs:34-104 | Each answer to a registration iff its cause, and the instance, key and audit row of one that succeeds |
| InstanceRegistry.RenewalAnsweredExactly | src/infrastructure/postgres_instance_registry.rs:120-166 | The same for a renewal: the first reason that applies is given |
| InstanceRegistry.RevocationAnsweredExactly | src/infrastructure/postgres_instance_registry.rs:168-232 | The same for a revocation |
| InstanceRegistry.RunsAreSound | src/infrastructure/postgres_instance_registry.rs:120-232 | Over any run the lease revision is one plus the number of renewals, the lease ends one policy after it was last granted, and each instance has exactly one key, revoked with it |
| InstanceRegistry.RenewalGrantedExactly | src/infrastructure/postgres_instance_registry.rs:132-142 | A renewal is granted iff the instance is eligible at that time and the caller names its revision |
| InstanceRegistry.RevisionWinsOnce | src/infrastructure/postgres_instance_registry.rs:132-142 | An expected revision wins at most once for an instance, over any run |
| InstanceRegistry.RevocationIsTerminal | src/infrastructure/postgres_instance_registry.rs:168-232 | After a revocation nothing is ever granted to the instance and its record never changes |
| InstanceRegistry.LeasesNeverShrink | src/kernel/instance_registry.rs:204-219 | While the clock does not fall back no lease gets shorter |
| InstanceRegistry.LeaseShrinksExactlyWhenClockFellBack | src/kernel/instance_registry.rs:204-219 | A renewal shortens the lease iff its time is before the time of the lease in force |
| RenewalFailures.ClassifierIsCompleteDespiteCommits | src/infrastructure/postgres_instance_registry.rs:260-290 | The catch-all is unreachable for a caller whose expected revision had been reached, whatever commits between the update and the read |
| RenewalFailures.LastBranchExactly | src/infrastructure/postgres_instance_registry.rs:260-290 | After an update that matched no row, some commits before the classifier's read can make it answer its catch-all iff the table can catch up: the ID is unregistered and an unused key is left, or the instance is unrevoked, registered by that time, behind the expected revision, and its lease plus one policy less a second for each missing renewal ends after that time |
| RenewalFailures.LastBranchForEligible | src/infrastructure/postgres_instance_registry.rs:260-290 | For an instance eligible at that time: iff its revision is below the expected one |
| Admission.AdmissionTables.SetAdmission | migrations/0007_communication_admission.sql:91-184 | The procedure with its errors in order; the guard trigger never refuses the procedure's own update |
| Admission.RunsAreSound | migrations/0007_communication_admission.sql:150-182 | Over any run: revision equals the number of changes, the switch is on iff the revision is odd, every history row states truly what was in force before and after, changes are in time order, correlation IDs are unique for a service |
| Admission.RepeatedCallReturnsTheOriginal | migrations/0007_communication_admission.sql:129-147 | At any later point the same correlation ID with the same metadata gets the original answer and changes nothing, and with other metadata it is a conflict |
| Admission.CallAppendsOneRow | migrations/0007_communication_admission.sql:116-183 | A call writes nothing iff it is refused or repeats a recorded correlation ID; otherwise it appends exactly one row, a no-op iff the switch already stood as asked |
| Admission.RunLeavesExactly | migrations/0007_communication_admission.sql:150-183 | At the end of any run the history has one row for each call answered under a new correlation ID, and the services are those registered |
| Admission.AnsweredExactly | migrations/0007_communication_admission.sql:91-184 | Each error iff its cause; the answer and the history row of a new call, field by field; the answer of a repeated one from the row recorded |
| Admission.MetadataExactly | migrations/0007_communication_admission.sql:115-121 | Metadata is valid iff both texts, freed of outer spaces, have 1 to 200 and 1 to 1000 characters and the time is not negative |
| Admission.OutOfOrderRowChangedNothing | migrations/0007_communication_admission.sql:150-175 | Over any run, a row dated after a later row of its service is one that changed nothing |
| Admission.BackdatedCallAcceptedExactly | migrations/0007_communication_admission.sql:145-155 | A call dated before the one just recorded is accepted iff that one changed nothing and the date is not before the last change; the two rows are then out of order |
| RegistrarPlan.SettlesExactlyWhenAgreeing | src/bin/registrar.rs:178-312 | A completed pass leaves nothing to do iff no two of its statements ask different things of one row |
| RegistrarPlan.RestartMakesNoDifference | src/bin/registrar.rs:178-312 | Stopping after any number of statements and starting over ends, or fails, exactly as an uninterrupted pass |
| RegistrarPlan.PlanReconciles | src/bin/registrar.rs:185-312 | A completed pass makes every identity, binding, admission flag and grant the manifest names what it says, and touches nothing else |
| RegistrarPlan.TriplesExactly | src/bin/registrar.rs:273-310 | The grants meant: each service of the manifest, each action and scope of its own |
| RegistrarPlan.StatementFailsExactly | src/bin/registrar.rs:185-312 | Which statements fail, from the rows; a binding while another service has the same account, enabled or not |
| RegistrarPlan.SwitchedOnByStatement | src/bin/registrar.rs:210-268 | After any statements a switch is on only if it was on before or one of them turned it on: an identity is entered with it off |
| RegistrarPlan.ReconciledIsUnique | src/bin/registrar.rs:185-312 | That description leaves one possible outcome |
| Registrar.FreshCall | src/bin/registrar.rs:246-268 | With a new correlation ID the procedure answers iff the administrator text and the service are known to it, sets the switch, and appends one row that is a no-op iff the switch already stood as asked |
| Registrar.LogAllNoOpExactly | src/bin/registrar.rs:246-268 | A complete pass over distinct services appends one admission row a service, all of them no-ops iff every switch already stood as the manifest asks |
| Registrar.ServiceReportedExactly | src/bin/registrar.rs:178-314 | What a pass reports of a service: identity, binding and switch each iff that row was not yet as asked, and each of its grants that was not live |
| Registrar.LiveTriplesExactly | src/bin/registrar.rs:274-288 | A grant counts as live iff it is to every destination, not revoked and not expired |
| Registrar.Database.Reconcile | src/bin/registrar.rs:178-314 | The nested loops, with a crash possible before any statement: a completed pass is the whole list of statements, a stopped one a prefix; a pass with nothing to do changes no row and reports no change, one that reports none changed nothing, and the report names service by service exactly the statements that changed something |
| Registrar.Database.Prune | src/bin/registrar.rs:321-389 | Only what the manifest omits is withdrawn, at any stopping point; a completed pass withdraws all of it and reports exactly the bindings disabled and the grants revoked |
| Registrar.Database.RunOnce | src/bin/registrar.rs:391-438 | Wherever a run stops or fails, a complete run from there reaches the state this one was heading for; a complete run with pruning leaves exactly the manifest's triples unrevoked, a complete run of a manifest that does not contradict itself leaves nothing to do, and a run with nothing to do changes no row, reports nothing and logs only no-ops |
| Registrar.Database.RunTwice | src/bin/registrar.rs:9-12 | After a complete run of a manifest that does not contradict itself, an immediate further run never fails, leaves every row as it was and reports nothing, with and without pruning |
| Routes.RouteRepository.MaterializeRoute | src/infrastructure/postgres_route_repository.rs:50-90 | Insert or return the stored row, with a failure possible before or after the statement takes effect |
| Routes.AnswersArePermanent | src/infrastructure/postgres_route_repository.rs:14-24 | Every route ever answered stays in the table as answered, for any interleaving of attempts |
| Routes.OneRoutePerMatch | src/infrastructure/postgres_route_repository.rs:14-24 | Two successful attempts at one request and subscription get the same route |
| Routes.ActionAlwaysRoutes | src/http.rs:330-331 | The error for an action that is not an event type is unreachable |
| Routes.NotAnEventTypeExactly | src/http.rs:330-331 | For any other action: the attempt reports it iff the action is no event type, having written nothing |
| Routes.RetryCompletes | src/http.rs:323-349 | An attempt that fails anywhere and is retried leaves one route for each subscription active at the retry, keeps every route, and adds only routes of this request to the destinations of subscriptions that matched; the routes are of its own source, and go to the right destinations, iff the table held no others under these keys before the first attempt |
| Routes.AttemptAddsTheseRows | src/http.rs:323-349 | Every row an attempt adds, in full: its own ID, the request, the subscription with its service, the attempt's time |
| Routes.AttemptFailsExactly | src/http.rs:323-349 | An attempt ends with the error of its first statement that goes wrong, and is answered iff none does |
| Routes.RouteRequest | src/http.rs:323-349 | The sequence of effects behind it, ended by the first error |
| Routes.ActiveForExactly | src/infrastructure/postgres_subscription_repository.rs:21-24 | The subscriptions considered are exactly the active ones for that event type |
| Routes.OwnRoutesExactly | migrations/0016_request_routes.sql:1-12 | The key omits the source: an answered request gets routes of its own source iff none is stored under its ID and a matched subscription for another source; the same for destinations |
| Routes.KeyLeavesSourceOut | migrations/0016_request_routes.sql:1-12 | What happens otherwise: a second source using the same request ID is handed the first one's route |
| ActionNames.ActionNameLanguage | src/kernel/requests.rs:499-522 | The recogniser accepts exactly the language of the stored regular expression, up to 200 characters |
| ActionNames.EventTypeLanguage | src/kernel/subscriptions.rs:71-113 | An event type is the trimmed text iff that is in the language of its stored expression, up to 200 characters |
| ActionNames.ActionNameIsEventType | src/http.rs:330-331 | Every action name is an event type, letter for letter |

## Left out

- Concurrent work-claim transactions: each claim, renewal and transition is assumed to be one atomic step. The row lock
  does not make it one: a claim that waited for another on the route's newest row goes on with the row it found and
  meets the unique indexes, so it is answered with a repository error where this model says already claimed.
- Concurrent acceptances of one request ID: `accept` is assumed to be one atomic step, as are the admission procedure and
  the registry's operations, except for the registry's second read after a failed renewal, which is modelled.
- Ed25519, SHA-256, OS randomness, the UUID library, JSON and Base64 internals, non-ASCII whitespace and UTF-8 decoding.
- I/O errors of a connection other than the end of the stream.
- The pool, migrations, environment variables, wiring, the TCP accept loop and threads.
- Policy evaluation, token review and the cluster's answers: arbitrary values, fixed for a registrar run.
- Identity, admission lookup, authority decisions, grants' matching rules and schema publication.
- Enrollment apart from its signed message; endpoint validation and stored-key parsing in the registry.
- Response bodies, status codes and error texts; `find` and listing reads that only return rows.
- Audit rows of grants, and the rejected duplicate grant, which its own exception rolls back.
- Admission.AdmissionTables.SetAdmission: SQL NULL is modelled for the two texts the procedure tests for it, not for the
  flag, the time or the IDs, which the registrar always supplies; a revision beyond 64 bits is not modelled.
- Registrar.Database.Reconcile: service IDs are UUID values, so a manifest that spells one non-canonically, which
  pruning would treat as another service, is not covered; correlation IDs come from a supply of unused ones,
  grant IDs are left out, and no grant expires and the clock does not fall during the runs compared.
- Routes.RouteRepository.MaterializeRoute: a clash of random route IDs, a missing reference and a lost connection are
  all arbitrary failures of a statement.
- Handshakes.RunsAreSound: the references of a challenge to its instance and key are not modelled.
- Submission.SubmissionsAreIdempotent: one gate step stands for the whole reservation, which the interleaving theorem
  justifies.
