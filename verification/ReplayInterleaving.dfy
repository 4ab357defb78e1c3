/**
 Any number of `reserve` transactions, interleaved one statement at a time.

 An insert waits while another open transaction holds an uncommitted row with the same key; a statement
 sees the committed rows and its own transaction's rows; an open transaction may roll back at any moment.
 */
module ReplayInterleaving {
  import opened Foundations
  import opened ReplayTables

  datatype Phase =
    | Begun
    | NonceRefused
    | NonceInserted
    | RequestTried(inserted: bool)
    | FingerprintRead(inserted: bool, stored: Bytes)
    | Audited(outcome: Outcome)
    | Committed(outcome: Outcome)
    | RolledBack

  datatype Call = Call(reservation: Reservation, phase: Phase)

  /** `order` lists the calls that have committed, earliest first. */
  datatype System = System(calls: seq<Call>, tables: Tables, order: seq<nat>)

  predicate InFlight(c: Call) { !c.phase.Committed? && !c.phase.RolledBack? }

  predicate HoldsNonce(c: Call) {
    match c.phase
    case NonceInserted | RequestTried(_) | FingerprintRead(_, _) => true
    case Audited(o) => !o.ReplayRejected?
    case _ => false
  }

  predicate HoldsRequestId(c: Call) {
    match c.phase
    case RequestTried(inserted) => inserted
    case FingerprintRead(inserted, _) => inserted
    case Audited(o) => o.Fresh?
    case _ => false
  }

  /** The next statement of call `i` is an insert whose key call `j` holds uncommitted. */
  predicate WaitsFor(s: System, i: nat, j: nat)
    requires i < |s.calls| && j < |s.calls|
  {
    var a, b := s.calls[i], s.calls[j];
    i != j &&
    ((a.phase.Begun? && HoldsNonce(b) && NonceOf(a.reservation) == NonceOf(b.reservation)) ||
     (a.phase.NonceInserted? && HoldsRequestId(b) && RequestOf(a.reservation) == RequestOf(b.reservation)))
  }

  ghost predicate Ready(s: System, i: nat) {
    i < |s.calls| && InFlight(s.calls[i]) && forall j: nat | j < |s.calls| :: !WaitsFor(s, i, j)
  }

  /** The phase call `c` reaches by its next statement before commit, given the committed rows. */
  function NextPhase(t: Tables, c: Call): Phase
    requires InFlight(c) && !c.phase.Audited?
  {
    var r := c.reservation;
    match c.phase
    case Begun => if NonceOf(r) in t.nonces then NonceRefused else NonceInserted
    case NonceRefused => Audited(ReplayRejected)
    case NonceInserted => RequestTried(RequestOf(r) !in t.requestIds)
    case RequestTried(inserted) =>
      if inserted then FingerprintRead(true, r.fingerprint)
      else if RequestOf(r) in t.requestIds then FingerprintRead(false, t.requestIds[RequestOf(r)].fingerprint)
      else RolledBack
    case FingerprintRead(inserted, stored) =>
      Audited(if stored != r.fingerprint then ConflictRejected else if inserted then Fresh else SafeRetry)
  }

  /** Commit publishes exactly the rows the transaction wrote. */
  function Publish(t: Tables, c: Call): Tables
    requires c.phase.Audited?
  {
    var r := c.reservation;
    Tables(
      if HoldsNonce(c) then t.nonces[NonceOf(r) := r] else t.nonces,
      if HoldsRequestId(c) then t.requestIds[RequestOf(r) := IdRow(r)] else t.requestIds,
      t.audit + [Audit(r, c.phase.outcome)])
  }

  function Advance(s: System, i: nat): System
    requires i < |s.calls| && InFlight(s.calls[i])
  {
    var c := s.calls[i];
    if c.phase.Audited? then
      System(s.calls[i := c.(phase := Committed(c.phase.outcome))], Publish(s.tables, c), s.order + [i])
    else
      s.(calls := s.calls[i := c.(phase := NextPhase(s.tables, c))])
  }

  function RollBack(s: System, i: nat): System
    requires i < |s.calls|
  {
    s.(calls := s.calls[i := s.calls[i].(phase := RolledBack)])
  }

  ghost predicate Moves(s: System, t: System, i: nat) {
    i < |s.calls| && InFlight(s.calls[i]) && ((Ready(s, i) && t == Advance(s, i)) || t == RollBack(s, i))
  }

  ghost predicate Step(s: System, t: System) { exists i: nat :: Moves(s, t, i) }

  predicate Initial(s: System) {
    s.order == [] && forall i | 0 <= i < |s.calls| :: s.calls[i].phase == Begun
  }

  ghost predicate IsRun(run: seq<System>) {
    |run| > 0 && Initial(run[0]) && forall k | 0 <= k < |run| - 1 :: Step(run[k], run[k + 1])
  }

  function Last(run: seq<System>): System
    requires |run| > 0
  {
    run[|run| - 1]
  }

  /** The committed reservations, in commit order. */
  function Serial(s: System): seq<Reservation>
    requires forall k | 0 <= k < |s.order| :: s.order[k] < |s.calls|
  {
    seq(|s.order|, k requires 0 <= k < |s.order| => s.calls[s.order[k]].reservation)
  }

  // ---- The inductive invariant ----

  ghost predicate OrderOk(s: System) {
    (forall k | 0 <= k < |s.order| :: s.order[k] < |s.calls| && s.calls[s.order[k]].phase.Committed?) &&
    (forall j, k | 0 <= j < k < |s.order| :: s.order[j] != s.order[k]) &&
    (forall i: nat | i < |s.calls| && s.calls[i].phase.Committed? :: i in s.order)
  }

  ghost predicate SerialOk(s: System, t0: Tables)
    requires OrderOk(s)
  {
    s.tables == ReserveAll(t0, Serial(s)) &&
    forall k: nat | k < |s.order| :: s.calls[s.order[k]].phase.outcome == OutcomeAt(t0, Serial(s), k)
  }

  ghost predicate Exclusive(s: System) {
    forall i, j | 0 <= i < j < |s.calls| ::
      (HoldsNonce(s.calls[i]) && HoldsNonce(s.calls[j]) ==>
         NonceOf(s.calls[i].reservation) != NonceOf(s.calls[j].reservation)) &&
      (HoldsRequestId(s.calls[i]) && HoldsRequestId(s.calls[j]) ==>
         RequestOf(s.calls[i].reservation) != RequestOf(s.calls[j].reservation))
  }

  /** What an open transaction has learnt is still true of the committed rows. */
  predicate Current(t: Tables, c: Call) {
    var r := c.reservation;
    match c.phase
    case NonceRefused => NonceOf(r) in t.nonces
    case NonceInserted => NonceOf(r) !in t.nonces
    case RequestTried(inserted) => NonceOf(r) !in t.nonces && inserted == (RequestOf(r) !in t.requestIds)
    case FingerprintRead(inserted, stored) =>
      NonceOf(r) !in t.nonces && inserted == (RequestOf(r) !in t.requestIds) &&
      stored == (if inserted then r.fingerprint else t.requestIds[RequestOf(r)].fingerprint)
    case Audited(o) => o == Verdict(t, r)
    case _ => true
  }

  ghost predicate Invariant(s: System, t0: Tables) {
    OrderOk(s) && SerialOk(s, t0) && Exclusive(s) &&
    forall i | 0 <= i < |s.calls| :: Current(s.tables, s.calls[i])
  }

  lemma SerialExtends(t0: Tables, rs: seq<Reservation>, r: Reservation)
    ensures ReserveAll(t0, rs + [r]) == ReserveAlone(ReserveAll(t0, rs), r)
    ensures OutcomeAt(t0, rs + [r], |rs|) == Verdict(ReserveAll(t0, rs), r)
    ensures forall k: nat | k < |rs| :: OutcomeAt(t0, rs + [r], k) == OutcomeAt(t0, rs, k)
  {
    assert (rs + [r])[..|rs|] == rs;
    forall k: nat | k < |rs|
      ensures OutcomeAt(t0, rs + [r], k) == OutcomeAt(t0, rs, k)
    {
      assert (rs + [r])[..k] == rs[..k];
    }
  }

  /** Committing one call leaves what every other open call has learnt true. */
  lemma CommitKeepsCurrent(s: System, i: nat, j: nat)
    requires i < |s.calls| && j < |s.calls| && i != j
    requires s.calls[i].phase.Audited? && Exclusive(s)
    requires Current(s.tables, s.calls[i]) && Current(s.tables, s.calls[j])
    ensures Current(Publish(s.tables, s.calls[i]), s.calls[j])
  {
    if i < j {
      assert HoldsNonce(s.calls[i]) && HoldsNonce(s.calls[j]) ==>
        NonceOf(s.calls[i].reservation) != NonceOf(s.calls[j].reservation);
    } else {
      assert HoldsNonce(s.calls[j]) && HoldsNonce(s.calls[i]) ==>
        NonceOf(s.calls[i].reservation) != NonceOf(s.calls[j].reservation);
    }
  }

  lemma CommitKeepsOrder(s: System, i: nat)
    requires OrderOk(s) && i < |s.calls| && s.calls[i].phase.Audited?
    ensures OrderOk(Advance(s, i))
    ensures Serial(Advance(s, i)) == Serial(s) + [s.calls[i].reservation]
  {
    var t := Advance(s, i);
    assert forall k | 0 <= k < |s.order| :: t.order[k] == s.order[k] && s.order[k] != i;
    forall j: nat | j < |t.calls| && t.calls[j].phase.Committed?
      ensures j in t.order
    {
      if j == i { assert t.order[|s.order|] == i; } else { assert j in s.order; }
    }
  }

  lemma CommitKeepsSerial(s: System, i: nat, t0: Tables)
    requires OrderOk(s) && SerialOk(s, t0) && i < |s.calls| && s.calls[i].phase.Audited?
    requires Current(s.tables, s.calls[i])
    ensures OrderOk(Advance(s, i)) && SerialOk(Advance(s, i), t0)
  {
    CommitKeepsOrder(s, i);
    var t, r := Advance(s, i), s.calls[i].reservation;
    SerialExtends(t0, Serial(s), r);
    forall k: nat | k < |t.order|
      ensures t.calls[t.order[k]].phase.outcome == OutcomeAt(t0, Serial(t), k)
    {
      if k < |s.order| { assert t.order[k] == s.order[k] != i; }
    }
  }

  lemma CommitKeepsInvariant(s: System, i: nat, t0: Tables)
    requires Invariant(s, t0) && i < |s.calls| && s.calls[i].phase.Audited?
    ensures Invariant(Advance(s, i), t0)
  {
    var t := Advance(s, i);
    CommitKeepsSerial(s, i, t0);
    forall j: nat | j < |t.calls|
      ensures Current(t.tables, t.calls[j])
    {
      if j != i { CommitKeepsCurrent(s, i, j); }
    }
  }

  /** A statement other than commit changes one phase and no committed row. */
  lemma PhaseChangeKeepsSerial(s: System, t: System, i: nat, p: Phase, t0: Tables)
    requires Invariant(s, t0) && i < |s.calls| && InFlight(s.calls[i]) && !p.Committed?
    requires t == s.(calls := s.calls[i := s.calls[i].(phase := p)])
    ensures OrderOk(t) && SerialOk(t, t0)
  {
    assert i !in s.order;
    assert forall k | 0 <= k < |s.order| :: t.calls[s.order[k]] == s.calls[s.order[k]];
    assert Serial(t) == Serial(s);
  }

  /** A ready call takes a row only when no other open call holds it. */
  lemma StatementKeepsExclusive(s: System, i: nat)
    requires Exclusive(s) && Ready(s, i) && !s.calls[i].phase.Audited? && Current(s.tables, s.calls[i])
    ensures Exclusive(Advance(s, i))
  {
    var t := Advance(s, i);
    forall a: nat, b: nat | a < b < |t.calls|
      ensures HoldsNonce(t.calls[a]) && HoldsNonce(t.calls[b]) ==>
                NonceOf(t.calls[a].reservation) != NonceOf(t.calls[b].reservation)
      ensures HoldsRequestId(t.calls[a]) && HoldsRequestId(t.calls[b]) ==>
                RequestOf(t.calls[a].reservation) != RequestOf(t.calls[b].reservation)
    {
      if a == i {
        assert !WaitsFor(s, i, b);
      } else if b == i {
        assert !WaitsFor(s, i, a);
      }
    }
  }

  lemma StatementKeepsInvariant(s: System, i: nat, t0: Tables)
    requires Invariant(s, t0) && Ready(s, i) && !s.calls[i].phase.Audited?
    ensures Invariant(Advance(s, i), t0)
  {
    var t := Advance(s, i);
    PhaseChangeKeepsSerial(s, t, i, NextPhase(s.tables, s.calls[i]), t0);
    StatementKeepsExclusive(s, i);
    assert t.tables == s.tables && Current(t.tables, t.calls[i]);
    assert forall j | 0 <= j < |t.calls| && j != i :: t.calls[j] == s.calls[j];
  }

  lemma RollBackKeepsInvariant(s: System, i: nat, t0: Tables)
    requires Invariant(s, t0) && i < |s.calls| && InFlight(s.calls[i])
    ensures Invariant(RollBack(s, i), t0)
  {
    var t := RollBack(s, i);
    PhaseChangeKeepsSerial(s, t, i, RolledBack, t0);
    assert !HoldsNonce(t.calls[i]) && !HoldsRequestId(t.calls[i]);
    assert forall j | 0 <= j < |t.calls| && j != i :: t.calls[j] == s.calls[j];
    assert Exclusive(t);
    assert t.tables == s.tables;
    assert forall j | 0 <= j < |t.calls| :: Current(t.tables, t.calls[j]);
  }

  lemma StepKeepsInvariant(s: System, t: System, t0: Tables)
    requires Invariant(s, t0) && Step(s, t)
    ensures Invariant(t, t0)
  {
    var i: nat :| Moves(s, t, i);
    if t == RollBack(s, i) {
      RollBackKeepsInvariant(s, i, t0);
    } else if s.calls[i].phase.Audited? {
      CommitKeepsInvariant(s, i, t0);
    } else {
      StatementKeepsInvariant(s, i, t0);
    }
  }

  lemma RunFront(run: seq<System>)
    requires IsRun(run) && |run| > 1
    ensures IsRun(run[..|run| - 1]) && Step(run[|run| - 2], run[|run| - 1])
  {
    var front := run[..|run| - 1];
    forall k | 0 <= k < |front| - 1
      ensures Step(front[k], front[k + 1])
    {
      assert Step(run[k], run[k + 1]);
    }
    var k := |run| - 2;
    assert Step(run[k], run[k + 1]);
  }

  lemma {:induction false} RunKeepsInvariant(run: seq<System>)
    requires IsRun(run)
    ensures Invariant(Last(run), run[0].tables)
  {
    if |run| == 1 {
      assert Serial(run[0]) == [];
    } else {
      RunFront(run);
      RunKeepsInvariant(run[..|run| - 1]);
      StepKeepsInvariant(run[|run| - 2], Last(run), run[0].tables);
    }
  }

  // ---- The theorems ----

  /**
   However the statements interleave, the rows and the answers are those of running the committed calls
   one at a time in commit order. A call that rolled back leaves nothing.
   */
  lemma InterleavingIsSerializable(run: seq<System>)
    requires IsRun(run)
    ensures var s := Last(run);
            OrderOk(s) && s.tables == ReserveAll(run[0].tables, Serial(s)) &&
            (forall i: nat | i < |s.calls| :: s.calls[i].phase.Committed? <==> i in s.order) &&
            (forall j, k | 0 <= j < k < |s.order| :: s.order[j] != s.order[k]) &&
            (forall k: nat | k < |s.order| ::
               s.calls[s.order[k]].phase == Committed(OutcomeAt(run[0].tables, Serial(s), k)))
  {
    RunKeepsInvariant(run);
  }

  /** A call that is waiting waits for one strictly further along. */
  function Rank(c: Call): nat {
    if c.phase.Begun? then 0 else if c.phase.NonceInserted? then 1 else 2
  }

  ghost predicate WaitChain(s: System, chain: seq<nat>) {
    (forall k | 0 <= k < |chain| :: chain[k] < |s.calls|) &&
    forall k | 0 <= k < |chain| - 1 :: WaitsFor(s, chain[k], chain[k + 1])
  }

  lemma {:induction false} WaitChainClimbs(s: System, chain: seq<nat>)
    requires |chain| > 0 && WaitChain(s, chain)
    ensures |chain| - 1 + Rank(s.calls[chain[0]]) <= Rank(s.calls[chain[|chain| - 1]])
  {
    if |chain| > 1 {
      var tail := chain[1..];
      forall k | 0 <= k < |tail| - 1
        ensures WaitsFor(s, tail[k], tail[k + 1])
      {
        assert WaitsFor(s, chain[k + 1], chain[k + 2]);
      }
      WaitChainClimbs(s, tail);
      assert WaitsFor(s, chain[0], chain[1]);
    }
  }

  /** No state at all has a wait cycle, and no chain of waits is longer than two. */
  lemma NoWaitCycle(s: System, chain: seq<nat>)
    requires |chain| > 1 && WaitChain(s, chain)
    ensures chain[0] != chain[|chain| - 1] && |chain| <= 3
  {
    WaitChainClimbs(s, chain);
  }

  /** While any call is open, some open call can execute its next statement. */
  lemma NeverStuck(s: System, i: nat)
    requires i < |s.calls| && InFlight(s.calls[i])
    ensures exists j: nat :: Ready(s, j)
    decreases 2 - Rank(s.calls[i])
  {
    if !Ready(s, i) {
      var j: nat :| j < |s.calls| && WaitsFor(s, i, j);
      NeverStuck(s, j);
    }
  }

  function Remaining(c: Call): nat {
    match c.phase
    case Begun => 6
    case NonceInserted => 5
    case RequestTried(_) => 4
    case FingerprintRead(_, _) => 3
    case NonceRefused => 2
    case Audited(_) => 1
    case _ => 0
  }

  function Work(calls: seq<Call>): nat {
    if calls == [] then 0 else Work(calls[..|calls| - 1]) + Remaining(calls[|calls| - 1])
  }

  lemma {:induction false} WorkAfterUpdate(calls: seq<Call>, i: nat, c: Call)
    requires i < |calls|
    ensures Work(calls[i := c]) + Remaining(calls[i]) == Work(calls) + Remaining(c)
  {
    var n := |calls| - 1;
    if i == n {
      assert calls[i := c][..n] == calls[..n];
    } else {
      assert calls[i := c][..n] == calls[..n][i := c];
      WorkAfterUpdate(calls[..n], i, c);
    }
  }

  lemma {:induction false} InitialWork(calls: seq<Call>)
    requires forall i | 0 <= i < |calls| :: calls[i].phase == Begun
    ensures Work(calls) == 6 * |calls|
  {
    if calls != [] { InitialWork(calls[..|calls| - 1]); }
  }

  lemma StepSpendsWork(s: System, t: System)
    requires Step(s, t)
    ensures |t.calls| == |s.calls| && Work(t.calls) < Work(s.calls)
  {
    var i: nat :| Moves(s, t, i);
    WorkAfterUpdate(s.calls, i, t.calls[i]);
  }

  lemma {:induction false} RunSpendsWork(run: seq<System>)
    requires IsRun(run)
    ensures |run| - 1 + Work(Last(run).calls) <= 6 * |run[0].calls|
  {
    if |run| == 1 {
      InitialWork(run[0].calls);
    } else {
      RunFront(run);
      RunSpendsWork(run[..|run| - 1]);
      StepSpendsWork(run[|run| - 2], Last(run));
    }
  }

  /** Every run is finite, and one in which no call can execute a statement has decided every call. */
  lemma RunsTerminate(run: seq<System>)
    requires IsRun(run)
    ensures |run| <= 6 * |run[0].calls| + 1
    ensures (forall i: nat :: !Ready(Last(run), i)) ==>
              forall i | 0 <= i < |Last(run).calls| :: !InFlight(Last(run).calls[i])
  {
    RunSpendsWork(run);
    var s := Last(run);
    if i: nat :| i < |s.calls| && InFlight(s.calls[i]) {
      NeverStuck(s, i);
    }
  }

  // ---- Only a roll-back rolls back ----

  /** In a reachable state a call that takes its next statement is not rolled back by it. */
  lemma StatementsDoNotRollBack(run: seq<System>, i: nat)
    requires IsRun(run) && i < |Last(run).calls| && InFlight(Last(run).calls[i])
    ensures !Advance(Last(run), i).calls[i].phase.RolledBack?
  {
    RunKeepsInvariant(run);
    assert Current(Last(run).tables, Last(run).calls[i]);
    hide OrderOk, SerialOk, Exclusive, IsRun;
  }
}
