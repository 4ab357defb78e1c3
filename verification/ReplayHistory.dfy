/** What the answers of `reserve` mean in terms of the calls made before, and what the rows count. */
module ReplayHistory {
  import opened Foundations
  import opened ReplayTables
  import opened ReplayInterleaving

  // ---- Reference definitions, over the calls in commit order and no table at all ----

  predicate SameNonce(a: Reservation, b: Reservation) { a.keyId == b.keyId && a.nonceDigest == b.nonceDigest }

  predicate SameRequest(a: Reservation, b: Reservation) { a.serviceId == b.serviceId && a.requestId == b.requestId }

  /** Call `k` is the first to present its nonce under its key. */
  predicate FirstUse(rs: seq<Reservation>, k: int)
    requires 0 <= k < |rs|
  {
    forall j | 0 <= j < k :: !SameNonce(rs[j], rs[k])
  }

  /** Call `k` is the first with a first-use nonce to present its request ID for its service. */
  predicate Binds(rs: seq<Reservation>, k: int)
    requires 0 <= k < |rs|
  {
    FirstUse(rs, k) && forall j | 0 <= j < k && FirstUse(rs, j) :: !SameRequest(rs[j], rs[k])
  }

  /** Call `b` is the one that bound the request ID call `k` presents. */
  predicate BoundBy(rs: seq<Reservation>, k: int, b: int)
    requires 0 <= k < |rs|
  {
    0 <= b < k && Binds(rs, b) && SameRequest(rs[b], rs[k])
  }

  lemma PrefixAgrees(rs: seq<Reservation>, n: nat)
    requires n <= |rs|
    ensures forall j | 0 <= j < n :: FirstUse(rs[..n], j) == FirstUse(rs, j) && Binds(rs[..n], j) == Binds(rs, j)
  {
    assert forall j | 0 <= j < n :: FirstUse(rs[..n], j) == FirstUse(rs, j);
  }

  lemma {:induction false} NonceRows(rs: seq<Reservation>, n: NonceKey)
    ensures n in ReserveAll(EMPTY, rs).nonces <==> exists j :: 0 <= j < |rs| && NonceOf(rs[j]) == n
  {
    if rs != [] {
      var front := rs[..|rs| - 1];
      NonceRows(front, n);
      assert forall j | 0 <= j < |front| :: front[j] == rs[j];
    }
  }

  lemma FirstUseMeansAbsent(rs: seq<Reservation>, k: nat)
    requires k < |rs|
    ensures FirstUse(rs, k) <==> NonceOf(rs[k]) !in ReserveAll(EMPTY, rs[..k]).nonces
  {
    NonceRows(rs[..k], NonceOf(rs[k]));
    assert forall j | 0 <= j < k :: rs[..k][j] == rs[j];
  }

  lemma {:induction false} FirstUseIsBound(rs: seq<Reservation>, j: nat)
    requires j < |rs| && FirstUse(rs, j)
    ensures RequestOf(rs[j]) in ReserveAll(EMPTY, rs).requestIds
  {
    var n := |rs| - 1;
    var t := ReserveAll(EMPTY, rs[..n]);
    assert ReserveAll(EMPTY, rs) == ReserveAlone(t, rs[n]);
    if j < n {
      PrefixAgrees(rs, n);
      FirstUseIsBound(rs[..n], j);
      assert RequestOf(rs[j]) in t.requestIds;
    } else {
      FirstUseMeansAbsent(rs, n);
      assert !Verdict(t, rs[n]).ReplayRejected?;
    }
  }

  lemma {:induction false} RowHasBinder(rs: seq<Reservation>, q: RequestKey) returns (b: nat)
    requires q in ReserveAll(EMPTY, rs).requestIds
    ensures b < |rs| && Binds(rs, b) && RequestOf(rs[b]) == q
    ensures ReserveAll(EMPTY, rs).requestIds[q] == IdRow(rs[b])
  {
    var n := |rs| - 1;
    var t := ReserveAll(EMPTY, rs[..n]);
    PrefixAgrees(rs, n);
    FirstUseMeansAbsent(rs, n);
    if q in t.requestIds {
      b := RowHasBinder(rs[..n], q);
    } else {
      b := n;
      forall j | 0 <= j < n && FirstUse(rs, j)
        ensures RequestOf(rs[j]) != q
      {
        FirstUseIsBound(rs[..n], j);
      }
    }
  }

  /**
   The answer to every call, from the calls alone: refused exactly when its nonce was presented before;
   otherwise fresh exactly when it binds its request ID, and else decided by the fingerprint bound.
   */
  lemma AnswersFollowHistory(rs: seq<Reservation>, k: nat)
    requires k < |rs|
    ensures var o := OutcomeAt(EMPTY, rs, k);
            (o.ReplayRejected? <==> !FirstUse(rs, k)) &&
            (o.Fresh? <==> Binds(rs, k)) &&
            (o.SafeRetry? <==> FirstUse(rs, k) && exists b :: BoundBy(rs, k, b) && rs[b].fingerprint == rs[k].fingerprint) &&
            (o.ConflictRejected? <==> FirstUse(rs, k) && exists b :: BoundBy(rs, k, b) && rs[b].fingerprint != rs[k].fingerprint)
  {
    var t := ReserveAll(EMPTY, rs[..k]);
    FirstUseMeansAbsent(rs, k);
    PrefixAgrees(rs, k);
    if RequestOf(rs[k]) in t.requestIds {
      var b := RowHasBinder(rs[..k], RequestOf(rs[k]));
      assert BoundBy(rs, k, b);
      assert forall c | BoundBy(rs, k, c) :: c == b;
    } else {
      forall j | 0 <= j < k && FirstUse(rs, j)
        ensures RequestOf(rs[j]) != RequestOf(rs[k])
      {
        FirstUseIsBound(rs[..k], j);
      }
    }
  }

  // ---- What the caller is told, and what is recorded ----

  /** The k-th call's answer and its audit row are what the history asks for. */
  ghost predicate Told(rs: seq<Reservation>, k: nat, result: Result<ReplayDisposition, ReplayProtectionError>, row: AuditRow)
    requires k < |rs|
  {
    var r := rs[k];
    (result == Err(ReplayDetected) <==> !FirstUse(rs, k)) &&
    (result == Ok(FreshRequest) <==> Binds(rs, k)) &&
    (result == Ok(RetriedRequest) <==>
       FirstUse(rs, k) && exists b :: BoundBy(rs, k, b) && rs[b].fingerprint == r.fingerprint) &&
    (result == Err(RequestIdConflict) <==>
       FirstUse(rs, k) && exists b :: BoundBy(rs, k, b) && rs[b].fingerprint != r.fingerprint) &&
    row.serviceId == r.serviceId && row.instanceId == r.instanceId && row.keyId == r.keyId &&
    row.requestId == r.requestId && row.nonceDigest == r.nonceDigest && row.fingerprint == r.fingerprint &&
    row.recordedAt == r.reservedAt &&
    (row.outcome.ReplayRejected? <==> result == Err(ReplayDetected)) &&
    (row.outcome.Fresh? <==> result == Ok(FreshRequest)) &&
    (row.outcome.SafeRetry? <==> result == Ok(RetriedRequest)) &&
    (row.outcome.ConflictRejected? <==> result == Err(RequestIdConflict))
  }

  lemma {:induction false} AuditRowOf(rs: seq<Reservation>, k: nat)
    requires k < |rs|
    ensures |ReserveAll(EMPTY, rs).audit| == |rs|
    ensures ReserveAll(EMPTY, rs).audit[k] == Audit(rs[k], OutcomeAt(EMPTY, rs, k))
    decreases |rs|
  {
    var n := |rs| - 1;
    if n > 0 { AuditRowOf(rs[..n], if k < n then k else 0); }
    if k < n {
      assert rs[..n][..k] == rs[..k];
    }
  }

  /** What the repository answers the k-th call and the row it leaves, from the calls before it alone. */
  lemma ResultsFollowHistory(rs: seq<Reservation>, k: nat)
    requires k < |rs|
    ensures k < |ReserveAll(EMPTY, rs).audit|
    ensures Told(rs, k, ToResult(OutcomeAt(EMPTY, rs, k)), ReserveAll(EMPTY, rs).audit[k])
  {
    AnswersFollowHistory(rs, k);
    AuditRowOf(rs, k);
  }

  /** Every stored nonce row is the reservation that first used it, every request-ID row the one that bound it. */
  lemma RowsAreTheirCalls(rs: seq<Reservation>, k: nat)
    requires k < |rs|
    ensures var t := ReserveAll(EMPTY, rs);
            (FirstUse(rs, k) ==> (rs[k].keyId, rs[k].nonceDigest) in t.nonces &&
                                 t.nonces[(rs[k].keyId, rs[k].nonceDigest)] == rs[k]) &&
            (Binds(rs, k) ==> (rs[k].serviceId, rs[k].requestId) in t.requestIds &&
                              t.requestIds[(rs[k].serviceId, rs[k].requestId)].fingerprint == rs[k].fingerprint &&
                              t.requestIds[(rs[k].serviceId, rs[k].requestId)].firstSeenAt == rs[k].reservedAt)
  {
    AnswersFollowHistory(rs, k);
    var t := ReserveAll(EMPTY, rs[..k + 1]);
    assert rs[..k + 1][..k] == rs[..k];
    RowsStay(rs, k + 1);
  }

  lemma {:induction false} RowsStay(rs: seq<Reservation>, k: nat)
    requires k <= |rs|
    ensures var t, u := ReserveAll(EMPTY, rs[..k]), ReserveAll(EMPTY, rs);
            (forall n | n in t.nonces :: n in u.nonces && u.nonces[n] == t.nonces[n]) &&
            (forall q | q in t.requestIds :: q in u.requestIds && u.requestIds[q] == t.requestIds[q])
    decreases |rs|
  {
    if k == |rs| {
      assert rs[..k] == rs;
    } else {
      assert rs[..|rs| - 1][..k] == rs[..k];
      RowsStay(rs[..|rs| - 1], k);
    }
  }

  // ---- The same facts for interleaved runs ----

  predicate Admitted(p: Phase) { p.Committed? && (p.outcome.Fresh? || p.outcome.SafeRetry?) }

  /** The place of a committed call in commit order, and its answer there. */
  lemma CommitPlace(run: seq<System>, i: nat) returns (a: nat)
    requires IsRun(run) && run[0].tables == EMPTY
    requires i < |Last(run).calls| && Last(run).calls[i].phase.Committed?
    ensures OrderOk(Last(run))
    ensures a < |Serial(Last(run))| && Serial(Last(run))[a] == Last(run).calls[i].reservation
    ensures Last(run).order[a] == i
    ensures Last(run).calls[i].phase.outcome == OutcomeAt(EMPTY, Serial(Last(run)), a)
  {
    InterleavingIsSerializable(run);
    var s := Last(run);
    a :| a < |s.order| && s.order[a] == i;
  }

  /** In any interleaved run every committed call is told, and leaves recorded, what its place in commit order asks for. */
  lemma CommittedCallsAreTold(run: seq<System>, i: nat)
    requires IsRun(run) && run[0].tables == EMPTY
    requires i < |Last(run).calls| && Last(run).calls[i].phase.Committed?
    ensures OrderOk(Last(run))
    ensures exists a: nat | a < |Last(run).order| && a < |Last(run).tables.audit| && Last(run).order[a] == i ::
              Told(Serial(Last(run)), a, ToResult(Last(run).calls[i].phase.outcome), Last(run).tables.audit[a])
  {
    var a := CommitPlace(run, i);
    InterleavingIsSerializable(run);
    ResultsFollowHistory(Serial(Last(run)), a);
  }

  /** In any interleaved run over empty tables no nonce is accepted twice under one key. */
  lemma NonceConsumedOnce(run: seq<System>, i: nat, j: nat)
    requires IsRun(run) && run[0].tables == EMPTY
    requires i < |Last(run).calls| && j < |Last(run).calls|
    requires var s := Last(run);
             s.calls[i].phase.Committed? && !s.calls[i].phase.outcome.ReplayRejected? &&
             s.calls[j].phase.Committed? && !s.calls[j].phase.outcome.ReplayRejected? &&
             SameNonce(s.calls[i].reservation, s.calls[j].reservation)
    ensures i == j
  {
    var a := CommitPlace(run, i);
    var b := CommitPlace(run, j);
    var rs := Serial(Last(run));
    AnswersFollowHistory(rs, a);
    AnswersFollowHistory(rs, b);
    assert NonceOf(rs[a]) == NonceOf(rs[b]);
    assert a == b;
  }

  /** In any interleaved run the calls admitted for one service and request ID agree on the fingerprint. */
  lemma AdmittedCallsAgree(run: seq<System>, i: nat, j: nat)
    requires IsRun(run) && run[0].tables == EMPTY
    requires i < |Last(run).calls| && j < |Last(run).calls|
    requires var s := Last(run);
             Admitted(s.calls[i].phase) && Admitted(s.calls[j].phase) &&
             SameRequest(s.calls[i].reservation, s.calls[j].reservation)
    ensures Last(run).calls[i].reservation.fingerprint == Last(run).calls[j].reservation.fingerprint
    ensures i != j ==> !(Last(run).calls[i].phase.outcome.Fresh? && Last(run).calls[j].phase.outcome.Fresh?)
  {
    var a := CommitPlace(run, i);
    var b := CommitPlace(run, j);
    var rs := Serial(Last(run));
    var x := BindingOf(rs, a);
    var y := BindingOf(rs, b);
    assert RequestOf(rs[x]) == RequestOf(rs[y]);
    assert x == y;
    AnswersFollowHistory(rs, a);
    AnswersFollowHistory(rs, b);
  }

  lemma BindingOf(rs: seq<Reservation>, k: nat) returns (b: nat)
    requires k < |rs| && (OutcomeAt(EMPTY, rs, k).Fresh? || OutcomeAt(EMPTY, rs, k).SafeRetry?)
    ensures b <= k && Binds(rs, b) && RequestOf(rs[b]) == RequestOf(rs[k]) && rs[b].fingerprint == rs[k].fingerprint
  {
    AnswersFollowHistory(rs, k);
    if Binds(rs, k) {
      b := k;
    } else {
      var c :| BoundBy(rs, k, c) && rs[c].fingerprint == rs[k].fingerprint;
      b := c;
    }
  }

  // ---- Counting ----

  function Count(audit: seq<AuditRow>, o: Outcome): nat {
    if audit == [] then 0
    else Count(audit[..|audit| - 1], o) + if audit[|audit| - 1].outcome == o then 1 else 0
  }

  /** One nonce row per audit row that was not a replay, one request-ID row per fresh audit row. */
  predicate Balanced(t: Tables) {
    |t.nonces| == Count(t.audit, Fresh) + Count(t.audit, SafeRetry) + Count(t.audit, ConflictRejected) &&
    |t.requestIds| == Count(t.audit, Fresh)
  }

  lemma CountExtends(audit: seq<AuditRow>, row: AuditRow, o: Outcome)
    ensures Count(audit + [row], o) == Count(audit, o) + if row.outcome == o then 1 else 0
  {
    assert (audit + [row])[..|audit|] == audit;
  }

  lemma OneMoreBalances(t: Tables, r: Reservation)
    requires Balanced(t)
    ensures Balanced(ReserveAlone(t, r))
  {
    var row := Audit(r, Verdict(t, r));
    CountExtends(t.audit, row, Fresh);
    CountExtends(t.audit, row, SafeRetry);
    CountExtends(t.audit, row, ConflictRejected);
    assert NonceOf(r) !in t.nonces ==> |t.nonces[NonceOf(r) := r]| == |t.nonces| + 1;
    assert RequestOf(r) !in t.requestIds ==> |t.requestIds[RequestOf(r) := IdRow(r)]| == |t.requestIds| + 1;
  }

  lemma {:induction false} RowsAreCounted(rs: seq<Reservation>)
    ensures Balanced(ReserveAll(EMPTY, rs)) && |ReserveAll(EMPTY, rs).audit| == |rs|
  {
    if rs != [] {
      RowsAreCounted(rs[..|rs| - 1]);
      OneMoreBalances(ReserveAll(EMPTY, rs[..|rs| - 1]), rs[|rs| - 1]);
    }
  }

  /** Stored nonces, request-ID bindings and audit rows are never altered or lost by later calls. */
  lemma {:induction false} RowsAreImmutable(t: Tables, rs: seq<Reservation>)
    ensures var u := ReserveAll(t, rs);
            (forall n | n in t.nonces :: n in u.nonces && u.nonces[n] == t.nonces[n]) &&
            (forall q | q in t.requestIds :: q in u.requestIds && u.requestIds[q] == t.requestIds[q]) &&
            t.audit <= u.audit
  {
    if rs != [] {
      RowsAreImmutable(t, rs[..|rs| - 1]);
    }
  }

  /** The counts and the request-ID bindings at the end of any interleaved run over empty tables. */
  lemma InterleavedRowsAreCounted(run: seq<System>)
    requires IsRun(run) && run[0].tables == EMPTY
    ensures Balanced(Last(run).tables) && |Last(run).tables.audit| == |Last(run).order|
  {
    InterleavingIsSerializable(run);
    RowsAreCounted(Serial(Last(run)));
  }
}
