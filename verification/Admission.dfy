/** The administrative switch for governed communication: one revisioned row a service, and its history. */
module Admission {
  import opened Foundations
  import opened Text

  datatype Row = Row(enabled: bool, revision: nat, updatedAt: int)
  datatype ChangeOutcome = Changed | NoOp
  datatype HistoryRow = HistoryRow(
    service: Uuid, oldEnabled: bool, newEnabled: bool, revision: nat, outcome: ChangeOutcome,
    administrator: string, reason: string, correlation: Uuid, committedAt: int)
  datatype Store = Store(rows: map<Uuid, Row>, history: seq<HistoryRow>)

  /** `None` is SQL's NULL. */
  datatype Request = Request(
    service: Uuid, enabled: bool, administrator: Option<string>, reason: Option<string>,
    correlation: Uuid, changedAt: i64)
  datatype Answer = Answer(enabled: bool, revision: nat, changedAt: int, outcome: ChangeOutcome)
  datatype AdmissionError =
    InvalidMetadata | ServiceNotFound | CorrelationConflict | TimestampPrecedesState | ChangeNotAllowed

  const EMPTY := Store(map[], [])

  /** SQL's `btrim` takes spaces off both ends. */
  function BTrim(s: string): string { Trim(s, c => c == ' ') }

  predicate ValidMetadata(q: Request) {
    && q.administrator.Some? && 1 <= |BTrim(q.administrator.value)| <= 200
    && q.reason.Some? && 1 <= |BTrim(q.reason.value)| <= 1000
    && q.changedAt >= 0
  }

  function Recorded(history: seq<HistoryRow>, service: Uuid, correlation: Uuid): (r: Option<HistoryRow>)
    ensures r.Some? ==> r.value in history && r.value.service == service && r.value.correlation == correlation
    ensures r.None? ==> forall h | h in history :: !(h.service == service && h.correlation == correlation)
  {
    if history == [] then None
    else if history[0].service == service && history[0].correlation == correlation then Some(history[0])
    else Recorded(history[1..], service, correlation)
  }

  predicate Repeats(h: HistoryRow, q: Request)
    requires ValidMetadata(q)
  {
    h.newEnabled == q.enabled && h.administrator == BTrim(q.administrator.value) &&
    h.reason == BTrim(q.reason.value) && h.committedAt == q.changedAt
  }

  function AnswerOf(h: HistoryRow): Answer { Answer(h.newEnabled, h.revision, h.committedAt, h.outcome) }

  /** The row a call appends when its correlation ID is new. */
  function Entry(current: Row, q: Request): HistoryRow
    requires ValidMetadata(q)
  {
    var changes := current.enabled != q.enabled;
    HistoryRow(q.service, current.enabled, q.enabled, current.revision + (if changes then 1 else 0),
               if changes then Changed else NoOp,
               BTrim(q.administrator.value), BTrim(q.reason.value), q.correlation, q.changedAt)
  }

  function Append(s: Store, h: HistoryRow): Store {
    Store(if h.outcome.Changed? then s.rows[h.service := Row(h.newEnabled, h.revision, h.committedAt)] else s.rows,
          s.history + [h])
  }

  function Set(s: Store, q: Request): (Store, Result<Answer, AdmissionError>) {
    if !ValidMetadata(q) then (s, Err(InvalidMetadata))
    else if q.service !in s.rows then (s, Err(ServiceNotFound))
    else
      var current := s.rows[q.service];
      match Recorded(s.history, q.service, q.correlation)
      case Some(h) => (s, if Repeats(h, q) then Ok(AnswerOf(h)) else Err(CorrelationConflict))
      case None =>
        if q.changedAt < current.updatedAt then (s, Err(TimestampPrecedesState))
        else
          var h := Entry(current, q);
          (Append(s, h), Ok(AnswerOf(h)))
  }

  /** Both tables, and the session setting the guard trigger looks at. */
  class AdmissionTables {
    var rows: map<Uuid, Row>
    var history: seq<HistoryRow>
    var changeContext: Option<Uuid>

    constructor ()
      ensures Contents() == EMPTY && changeContext == None
    {
      rows, history, changeContext := map[], [], None;
    }

    function Contents(): Store
      reads this
    {
      Store(rows, history)
    }

    /** The guard trigger's condition on an update of one row. */
    predicate GuardAllows(service: Uuid, after: Row)
      reads this
      requires service in rows
    {
      changeContext.Some? && after.revision == rows[service].revision + 1 &&
      after.enabled != rows[service].enabled && after.updatedAt >= rows[service].updatedAt
    }

    /** The update the guard stands before. */
    method UpdateRow(service: Uuid, after: Row) returns (allowed: bool)
      requires service in rows
      modifies this`rows
      ensures allowed == old(GuardAllows(service, after))
      ensures rows == if allowed then old(rows)[service := after] else old(rows)
    {
      allowed := GuardAllows(service, after);
      if allowed { rows := rows[service := after]; }
    }

    /** `Set` has no answer for a refused update: the guard never refuses this one. */
    method SetAdmission(q: Request) returns (r: Result<Answer, AdmissionError>)
      requires changeContext == None
      modifies this
      ensures changeContext == None
      ensures (Contents(), r) == Set(old(Contents()), q)
    {
      if !ValidMetadata(q) { return Err(InvalidMetadata); }
      if q.service !in rows { return Err(ServiceNotFound); }
      var current := rows[q.service];
      var existing := Recorded(history, q.service, q.correlation);
      if existing.Some? {
        if !Repeats(existing.value, q) { return Err(CorrelationConflict); }
        return Ok(AnswerOf(existing.value));
      }
      if q.changedAt < current.updatedAt { return Err(TimestampPrecedesState); }
      var revision, outcome := current.revision, NoOp;
      if current.enabled != q.enabled {
        revision, outcome := current.revision + 1, Changed;
        changeContext := Some(q.correlation);
        var allowed := UpdateRow(q.service, Row(q.enabled, revision, q.changedAt));
        changeContext := None;
        if !allowed { return Err(ChangeNotAllowed); }
      }
      history := history + [HistoryRow(q.service, current.enabled, q.enabled, revision, outcome,
                                       BTrim(q.administrator.value), BTrim(q.reason.value), q.correlation, q.changedAt)];
      return Ok(Answer(q.enabled, revision, q.changedAt, outcome));
    }
  }

  // ---- Runs ----

  /** An identity inserted at a database time gets its row from a trigger; otherwise the procedure is called. */
  datatype Event = Register(service: Uuid, at: nat) | Call(request: Request)

  function Step(s: Store, e: Event): Store {
    match e
    case Register(service, at) => if service in s.rows then s else s.(rows := s.rows[service := Row(false, 0, at)])
    case Call(q) => Set(s, q).0
  }

  function Run(s: Store, events: seq<Event>): Store {
    if events == [] then s else Step(Run(s, events[..|events| - 1]), events[|events| - 1])
  }

  // ---- The history tells the whole story ----

  function ChangesOf(history: seq<HistoryRow>, service: Uuid): nat {
    if history == [] then 0
    else
      var last := history[|history| - 1];
      ChangesOf(history[..|history| - 1], service) + (if last.service == service && last.outcome.Changed? then 1 else 0)
  }

  predicate Odd(n: nat) { n % 2 == 1 }

  /** The i-th row says truly what was in force before it and after it. */
  ghost predicate Truthful(history: seq<HistoryRow>, i: nat)
    requires i < |history|
  {
    var h := history[i];
    var before, after := ChangesOf(history[..i], h.service), ChangesOf(history[..i + 1], h.service);
    h.revision == after && h.oldEnabled == Odd(before) && h.newEnabled == Odd(after)
  }

  ghost predicate Ordered(history: seq<HistoryRow>, i: nat, j: nat)
    requires i < j < |history|
  {
    (history[i].service == history[j].service && history[i].outcome.Changed? ==>
      history[i].committedAt <= history[j].committedAt) &&
    !(history[i].service == history[j].service && history[i].correlation == history[j].correlation)
  }

  /** No change of `service` is recorded after `at`. */
  ghost predicate ChangedBy(history: seq<HistoryRow>, service: Uuid, at: int) {
    forall i | 0 <= i < |history| && history[i].service == service && history[i].outcome.Changed? ::
      history[i].committedAt <= at
  }

  ghost predicate Current(s: Store, service: Uuid)
    requires service in s.rows
  {
    s.rows[service].revision == ChangesOf(s.history, service) &&
    s.rows[service].enabled == Odd(s.rows[service].revision) &&
    ChangedBy(s.history, service, s.rows[service].updatedAt)
  }

  ghost predicate Sound(s: Store) {
    (forall service | service in s.rows :: Current(s, service)) &&
    (forall i | 0 <= i < |s.history| :: s.history[i].service in s.rows && Truthful(s.history, i)) &&
    (forall i, j | 0 <= i < j < |s.history| :: Ordered(s.history, i, j))
  }

  lemma {:induction false} NoRowsNoChanges(history: seq<HistoryRow>, service: Uuid)
    requires forall h | h in history :: h.service != service
    ensures ChangesOf(history, service) == 0
  {
    if history != [] { NoRowsNoChanges(history[..|history| - 1], service); }
  }

  lemma RegisterKeepsSound(s: Store, service: Uuid, at: nat)
    requires Sound(s) && service !in s.rows
    ensures Sound(Step(s, Register(service, at)))
  {
    NoRowsNoChanges(s.history, service);
    forall other | other in s.rows ensures Current(Step(s, Register(service, at)), other) {
      assert Current(s, other);
    }
  }

  /** `h` records a step from the row in force, under a correlation ID not used before. */
  ghost predicate Follows(s: Store, h: HistoryRow) {
    h.service in s.rows && h.oldEnabled == s.rows[h.service].enabled &&
    (h.outcome.Changed? <==> h.oldEnabled != h.newEnabled) &&
    h.revision == s.rows[h.service].revision + (if h.outcome.Changed? then 1 else 0) &&
    h.committedAt >= s.rows[h.service].updatedAt &&
    forall i | 0 <= i < |s.history| :: !(s.history[i].service == h.service && s.history[i].correlation == h.correlation)
  }

  lemma PrefixStaysTruthful(history: seq<HistoryRow>, h: HistoryRow, i: nat)
    requires i < |history| && Truthful(history, i)
    ensures Truthful(history + [h], i)
  {
    hide ChangesOf;
    assert (history + [h])[..i] == history[..i] && (history + [h])[..i + 1] == history[..i + 1];
  }

  lemma AppendIsTruthful(s: Store, h: HistoryRow)
    requires Sound(s) && Follows(s, h)
    ensures Truthful(s.history + [h], |s.history|)
  {
    assert Current(s, h.service);
    ChangesAfter(s.history, h, h.service);
    hide Sound, ChangesOf;
    var history := s.history + [h];
    assert history[..|s.history|] == s.history && history[..|history|] == history;
  }

  lemma AppendIsOrdered(s: Store, h: HistoryRow, i: nat, j: nat)
    requires Sound(s) && Follows(s, h) && i < j <= |s.history|
    ensures Ordered(s.history + [h], i, j)
  {
    if j < |s.history| {
      assert Ordered(s.history, i, j);
    } else {
      assert Current(s, h.service);
    }
  }

  lemma ChangesAfter(history: seq<HistoryRow>, h: HistoryRow, service: Uuid)
    ensures ChangesOf(history + [h], service) ==
            ChangesOf(history, service) + (if h.service == service && h.outcome.Changed? then 1 else 0)
  {
    assert (history + [h])[..|history|] == history;
  }

  lemma ChangedByAfter(history: seq<HistoryRow>, h: HistoryRow, service: Uuid, before: int)
    requires ChangedBy(history, service, before) && (h.service == service ==> before <= h.committedAt)
    ensures ChangedBy(history + [h], service,
                      if h.service == service && h.outcome.Changed? then h.committedAt else before)
  {
  }

  lemma AppendKeepsCurrent(s: Store, h: HistoryRow, service: Uuid)
    requires Sound(s) && Follows(s, h) && service in s.rows
    ensures Current(Append(s, h), service)
  {
    assert Current(s, service) && Current(s, h.service);
    ChangesAfter(s.history, h, service);
    ChangedByAfter(s.history, h, service, s.rows[service].updatedAt);
    hide Sound, ChangesOf, ChangedBy;
  }

  lemma FollowsKnown(s: Store, h: HistoryRow)
    requires Follows(s, h)
    ensures Append(s, h).rows.Keys == s.rows.Keys && h.service in s.rows
  {
  }

  lemma AppendKeepsSound(s: Store, h: HistoryRow)
    requires Sound(s) && Follows(s, h)
    ensures Sound(Append(s, h))
  {
    hide Current, Truthful, Ordered, Follows;
    var after := Append(s, h);
    FollowsKnown(s, h);
    forall service | service in after.rows ensures Current(after, service) { AppendKeepsCurrent(s, h, service); }
    forall i | 0 <= i < |after.history| ensures after.history[i].service in after.rows && Truthful(after.history, i) {
      if i < |s.history| { PrefixStaysTruthful(s.history, h, i); } else { AppendIsTruthful(s, h); }
    }
    forall i, j | 0 <= i < j < |after.history| ensures Ordered(after.history, i, j) { AppendIsOrdered(s, h, i, j); }
  }

  lemma CallKeepsSound(s: Store, q: Request)
    requires Sound(s)
    ensures Sound(Set(s, q).0)
  {
    hide Sound, BTrim, Append;
    if Set(s, q).0 != s {
      var h := Entry(s.rows[q.service], q);
      assert forall i | 0 <= i < |s.history| :: s.history[i] in s.history;
      AppendKeepsSound(s, h);
    }
  }

  /** Over any run every revision counts the changes, and the switch is on exactly at odd revisions. */
  lemma {:induction false} RunsAreSound(events: seq<Event>)
    ensures Sound(Run(EMPTY, events))
  {
    if events != [] {
      var before, e := Run(EMPTY, events[..|events| - 1]), events[|events| - 1];
      RunsAreSound(events[..|events| - 1]);
      match e
      case Register(service, at) => if service !in before.rows { RegisterKeepsSound(before, service, at); }
      case Call(q) => CallKeepsSound(before, q);
    }
  }

  // ---- A correlation ID names one call for good ----

  predicate SameMetadata(p: Request, q: Request) {
    ValidMetadata(p) && ValidMetadata(q) && p.service == q.service && p.correlation == q.correlation &&
    p.enabled == q.enabled && p.changedAt == q.changedAt &&
    BTrim(p.administrator.value) == BTrim(q.administrator.value) && BTrim(p.reason.value) == BTrim(q.reason.value)
  }

  lemma {:induction false} RecordedStays(history: seq<HistoryRow>, h: HistoryRow, service: Uuid, correlation: Uuid)
    ensures var before, after := Recorded(history, service, correlation), Recorded(history + [h], service, correlation);
            after == if before.Some? then before
                     else if h.service == service && h.correlation == correlation then Some(h) else None
  {
    if history == [] {
      assert [h][1..] == [];
    } else {
      assert (history + [h])[1..] == history[1..] + [h];
      RecordedStays(history[1..], h, service, correlation);
    }
  }

  lemma {:induction false} RecordedForGood(s: Store, events: seq<Event>, service: Uuid, correlation: Uuid)
    requires service in s.rows && Recorded(s.history, service, correlation).Some?
    ensures service in Run(s, events).rows
    ensures Recorded(Run(s, events).history, service, correlation) == Recorded(s.history, service, correlation)
  {
    if events != [] {
      var front, e := events[..|events| - 1], events[|events| - 1];
      RecordedForGood(s, front, service, correlation);
      var before, after := Run(s, front), Run(s, events);
      if after.history != before.history {
        RecordedStays(before.history, after.history[|before.history|], service, correlation);
        assert after.history == before.history + [after.history[|before.history|]];
      }
    }
  }

  lemma AnsweredIsRecorded(s: Store, q: Request)
    requires Set(s, q).1.Ok?
    ensures ValidMetadata(q) && q.service in Set(s, q).0.rows
    ensures var h := Recorded(Set(s, q).0.history, q.service, q.correlation);
            h.Some? && Repeats(h.value, q) && Set(s, q).1 == Ok(AnswerOf(h.value))
  {
    if Recorded(s.history, q.service, q.correlation).None? {
      RecordedStays(s.history, Entry(s.rows[q.service], q), q.service, q.correlation);
    }
  }

  /** Whatever happened since, the same call gets the first answer and changes nothing; any other is a conflict. */
  lemma RepeatedCallReturnsTheOriginal(s: Store, q: Request, since: seq<Event>, again: Request)
    requires Set(s, q).1.Ok?
    requires ValidMetadata(again) && again.service == q.service && again.correlation == q.correlation
    ensures var now := Run(Set(s, q).0, since);
            Set(now, again) == (now, if SameMetadata(q, again) then Set(s, q).1 else Err(CorrelationConflict))
  {
    AnsweredIsRecorded(s, q);
    RecordedForGood(Set(s, q).0, since, q.service, q.correlation);
  }

  // ---- What one call writes ----

  /**
   A call writes nothing exactly when it is refused or its correlation ID is recorded; otherwise it appends one row,
   which says that nothing changed exactly when the switch already stood as asked.
   */
  lemma CallAppendsOneRow(s: Store, q: Request)
    ensures var (after, answer) := Set(s, q);
            var repeated := Recorded(s.history, q.service, q.correlation).Some?;
            (after == s <==> answer.Err? || repeated) &&
            (answer.Ok? && !repeated ==>
               q.service in s.rows && |after.history| == |s.history| + 1 && after.history[..|s.history|] == s.history &&
               var h := after.history[|s.history|];
               h.service == q.service && h.correlation == q.correlation && h.committedAt == q.changedAt &&
               (h.outcome.NoOp? <==> s.rows[q.service].enabled == q.enabled) &&
               (h.outcome.NoOp? ==> after.rows == s.rows))
  {
    hide BTrim, Recorded;
    if Set(s, q).0 != s { assert |Set(s, q).0.history| == |s.history| + 1; }
  }

  function Spaces(n: nat): string { seq(n, i => ' ') }

  predicate NoOuterSpace(s: string) { s != "" ==> s[0] != ' ' && s[|s| - 1] != ' ' }

  lemma SpacesTrimmed(before: nat, text: string, after: nat)
    requires NoOuterSpace(text)
    ensures BTrim(Spaces(before) + (text + Spaces(after))) == text
  {
    TrimFrees(c => c == ' ', Spaces(before), text, Spaces(after));
  }

  /** Metadata is valid when, without the spaces around them, both texts are given and short enough. */
  lemma MetadataExactly(q: Request, a: nat, administrator: string, b: nat, c: nat, reason: string, d: nat)
    requires q.administrator == Some(Spaces(a) + (administrator + Spaces(b))) && NoOuterSpace(administrator)
    requires q.reason == Some(Spaces(c) + (reason + Spaces(d))) && NoOuterSpace(reason)
    ensures ValidMetadata(q) <==> 1 <= |administrator| <= 200 && 1 <= |reason| <= 1000 && q.changedAt >= 0
    ensures BTrim(q.administrator.value) == administrator && BTrim(q.reason.value) == reason
    ensures !ValidMetadata(q.(administrator := None)) && !ValidMetadata(q.(reason := None))
  {
    SpacesTrimmed(a, administrator, b);
    SpacesTrimmed(c, reason, d);
    hide BTrim;
  }

  /** The row already recorded for a call's service and correlation ID says what the call says. */
  predicate SaysTheSame(h: HistoryRow, q: Request) {
    ValidMetadata(q) && h.service == q.service && h.correlation == q.correlation && h.newEnabled == q.enabled &&
    h.administrator == BTrim(q.administrator.value) && h.reason == BTrim(q.reason.value) && h.committedAt == q.changedAt
  }

  /** The answer to a call and the row it leaves, or the recorded row it is answered from. */
  lemma AnsweredExactly(s: Store, q: Request)
    ensures var (after, answer) := Set(s, q);
            var known := ValidMetadata(q) && q.service in s.rows;
            var h := Recorded(s.history, q.service, q.correlation);
            (answer == Err(InvalidMetadata) <==> !ValidMetadata(q)) &&
            (answer == Err(ServiceNotFound) <==> ValidMetadata(q) && q.service !in s.rows) &&
            (answer == Err(CorrelationConflict) <==> known && h.Some? && !SaysTheSame(h.value, q)) &&
            (answer == Err(TimestampPrecedesState) <==> known && h.None? && q.changedAt < s.rows[q.service].updatedAt) &&
            (answer.Ok? && h.Some? ==>
               answer.value.enabled == h.value.newEnabled && answer.value.revision == h.value.revision &&
               answer.value.changedAt == h.value.committedAt && answer.value.outcome == h.value.outcome) &&
            (answer.Ok? && h.None? ==>
               var row := s.rows[q.service];
               var revision := if row.enabled == q.enabled then row.revision else row.revision + 1;
               var outcome := if row.enabled == q.enabled then NoOp else Changed;
               answer.value.enabled == q.enabled && answer.value.revision == revision &&
               answer.value.changedAt == q.changedAt && answer.value.outcome == outcome &&
               after.rows == (if row.enabled == q.enabled then s.rows
                              else s.rows[q.service := Row(enabled := q.enabled, revision := revision, updatedAt := q.changedAt)]) &&
               after.history == s.history + [HistoryRow(
                 service := q.service, oldEnabled := row.enabled, newEnabled := q.enabled, revision := revision,
                 outcome := outcome, administrator := BTrim(q.administrator.value), reason := BTrim(q.reason.value),
                 correlation := q.correlation, committedAt := q.changedAt)])
  {
    hide BTrim;
  }

  /** The calls of a run that were answered under a new correlation ID. */
  ghost function NewCalls(events: seq<Event>): nat {
    if events == [] then 0
    else
      var front, e := events[..|events| - 1], events[|events| - 1];
      var s := Run(EMPTY, front);
      NewCalls(front) +
      (if e.Call? && Set(s, e.request).1.Ok? && Recorded(s.history, e.request.service, e.request.correlation).None? then 1 else 0)
  }

  /** The history has one row for each of these, and the services are those registered. */
  lemma {:induction false} RunLeavesExactly(events: seq<Event>, service: Uuid)
    ensures |Run(EMPTY, events).history| == NewCalls(events)
    ensures service in Run(EMPTY, events).rows <==>
            exists i | 0 <= i < |events| :: events[i].Register? && events[i].service == service
  {
    if events != [] {
      var front, e := events[..|events| - 1], events[|events| - 1];
      RunLeavesExactly(front, service);
      assert forall i | 0 <= i < |front| :: front[i] == events[i];
      if e.Call? { CallAppendsOneRow(Run(EMPTY, front), e.request); }
    }
  }

  // ---- Which rows can run backwards in time ----

  /** Over any run, a row of a service can be dated after a later one only if it changed nothing. */
  lemma OutOfOrderRowChangedNothing(events: seq<Event>, i: nat, j: nat)
    requires var history := Run(EMPTY, events).history;
             i < j < |history| && history[i].service == history[j].service &&
             history[i].committedAt > history[j].committedAt
    ensures Run(EMPTY, events).history[i].outcome.NoOp?
  {
    RunsAreSound(events);
    assert Ordered(Run(EMPTY, events).history, i, j);
  }

  /**
   And it can whenever it did: a call dated before the one just recorded is accepted exactly when that one changed
   nothing and the date is not before the last change; the two rows are then out of order.
   */
  lemma BackdatedCallAcceptedExactly(s: Store, p: Request, q: Request)
    requires Set(s, p).1.Ok? && Recorded(s.history, p.service, p.correlation).None?
    requires ValidMetadata(q) && q.service == p.service && q.changedAt < p.changedAt
    requires Recorded(s.history, q.service, q.correlation).None? && q.correlation != p.correlation
    ensures p.service in s.rows
    ensures var after := Set(Set(s, p).0, q);
            (after.1.Ok? <==> p.enabled == s.rows[p.service].enabled && q.changedAt >= s.rows[p.service].updatedAt) &&
            (after.1.Ok? ==>
               |after.0.history| == |s.history| + 2 &&
               after.0.history[|s.history|].committedAt > after.0.history[|s.history| + 1].committedAt &&
               (after.0.history[|s.history| + 1].outcome.NoOp? <==> q.enabled == s.rows[p.service].enabled))
  {
    hide BTrim, Recorded;
    RecordedStays(s.history, Entry(s.rows[p.service], p), q.service, q.correlation);
  }
}
