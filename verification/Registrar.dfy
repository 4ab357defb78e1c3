/** The registrar: autocommitted statements in nested loops, any of which may be the last one before a crash. */
module Registrar {
  import opened Foundations
  import opened RegistrarPlan
  import Admission

  datatype Grant = Grant(
    triple: Triple, destination: Option<Uuid>, validFrom: int, validUntil: Option<int>, revokedAt: Option<int>)

  datatype Rows = Rows(
    identities: map<Uuid, Identity>, bindings: map<Uuid, Binding>, flags: map<Uuid, Admission.Row>, grants: seq<Grant>)

  predicate Unexpired(g: Grant, at: int) { g.validUntil.None? || g.validUntil.value > at }

  predicate Live(g: Grant, at: int) { g.destination.None? && g.revokedAt.None? && Unexpired(g, at) }

  function LiveTriples(grants: seq<Grant>, at: int): set<Triple> {
    set g | g in grants && Live(g, at) :: g.triple
  }

  /** A triple is live by a grant to every destination that is neither revoked nor expired. */
  lemma LiveTriplesExactly(grants: seq<Grant>, at: int, t: Triple)
    ensures t in LiveTriples(grants, at) <==>
            exists g | g in grants ::
              g.triple == t && g.destination == None && g.revokedAt == None &&
              (g.validUntil.Some? ==> at < g.validUntil.value)
  {
    if g :| g in grants && g.triple == t && g.destination == None && g.revokedAt == None &&
            (g.validUntil.Some? ==> at < g.validUntil.value) {
      assert Live(g, at);
    }
  }

  function Unrevoked(grants: seq<Grant>): set<Triple> { set g | g in grants && g.revokedAt.None? :: g.triple }

  function Flags(flags: map<Uuid, Admission.Row>): map<Uuid, bool> { map id | id in flags :: flags[id].enabled }

  function ViewOf(r: Rows, at: int): View {
    View(r.identities, r.bindings, Flags(r.flags), LiveTriples(r.grants, at))
  }

  datatype Outcome = Failed | Unchanged | Changed

  /** What a statement's reported outcome says about the view before and after it. */
  ghost predicate Effect(env: Environment, before: View, s: Statement, after: View, o: Outcome) {
    match o
    case Failed => Apply(env, before, s) == None && after == before
    case Unchanged => Apply(env, before, s) == Some(before) && after == before
    case Changed => Apply(env, before, s) == Some(after) && after != before
  }

  datatype Change = IdentityChange | BindingChange(uid: string) | AdmissionChange(enabled: bool) | GrantChange(spec: GrantSpec)
  datatype Run<T> = Completed(value: T) | Error | Stopped

  // ---- The admission history ----

  const REASON := "registrar reconciliation"

  predicate FlagOf(flags: map<Uuid, Admission.Row>, id: Uuid) { id in flags && flags[id].enabled }

  /** The rows of `after` that `before` lacks are one for each of the first `n` services, in order. */
  ghost predicate Logged(before: seq<Admission.HistoryRow>, after: seq<Admission.HistoryRow>, m: Manifest, n: nat)
  {
    n <= |m| && |after| == |before| + n && before == after[..|before|] &&
    forall k | 0 <= k < n :: after[|before| + k].service == m[k].id
  }

  /** Each of them says that nothing changed exactly when the switch stood as asked before the pass. */
  ghost predicate LoggedTruly(flags: map<Uuid, Admission.Row>, before: seq<Admission.HistoryRow>,
                              after: seq<Admission.HistoryRow>, m: Manifest, n: nat)
    requires Logged(before, after, m, n)
  {
    forall k | 0 <= k < n :: after[|before| + k].outcome.NoOp? <==> FlagOf(flags, m[k].id) == m[k].communicationEnabled
  }

  ghost predicate AllNoOp(before: seq<Admission.HistoryRow>, after: seq<Admission.HistoryRow>) {
    |before| <= |after| && forall k | |before| <= k < |after| :: after[k].outcome.NoOp?
  }

  /** One more row, for this service. */
  ghost predicate OneLogged(before: seq<Admission.HistoryRow>, after: seq<Admission.HistoryRow>, id: Uuid) {
    |after| == |before| + 1 && before == after[..|before|] && after[|before|].service == id
  }

  lemma LogGrows(before: seq<Admission.HistoryRow>, mid: seq<Admission.HistoryRow>, after: seq<Admission.HistoryRow>,
                 m: Manifest, i: nat)
    requires i < |m| && Logged(before, mid, m, i) && OneLogged(mid, after, m[i].id)
    ensures Logged(before, after, m, i + 1)
    ensures AllNoOp(before, mid) && after[|mid|].outcome.NoOp? ==> AllNoOp(before, after)
  {
    assert after[..|before|] == mid[..|before|];
    assert forall k | 0 <= k < |mid| :: after[k] == mid[k];
  }

  /** The log after the first `n` services: true of the switches before the pass, which the rest have not touched. */
  ghost predicate LogSound(flags: map<Uuid, Admission.Row>, current: map<Uuid, Admission.Row>,
                           before: seq<Admission.HistoryRow>, after: seq<Admission.HistoryRow>, m: Manifest, n: nat)
  {
    Logged(before, after, m, n) &&
    (DistinctServices(m) ==>
       LoggedTruly(flags, before, after, m, n) &&
       forall k | n <= k < |m| :: FlagOf(current, m[k].id) == FlagOf(flags, m[k].id))
  }

  lemma LogStarts(flags: map<Uuid, Admission.Row>, before: seq<Admission.HistoryRow>, m: Manifest)
    ensures LogSound(flags, flags, before, before, m, 0) && AllNoOp(before, before)
  {
  }

  lemma LogStaysSound(flags: map<Uuid, Admission.Row>, current: map<Uuid, Admission.Row>, next: map<Uuid, Admission.Row>,
                      before: seq<Admission.HistoryRow>, mid: seq<Admission.HistoryRow>, after: seq<Admission.HistoryRow>,
                      m: Manifest, i: nat)
    requires i < |m| && LogSound(flags, current, before, mid, m, i) && OneLogged(mid, after, m[i].id)
    requires after[|mid|].outcome.NoOp? <==> FlagOf(current, m[i].id) == m[i].communicationEnabled
    requires forall id | id != m[i].id :: FlagOf(next, id) == FlagOf(current, id)
    ensures LogSound(flags, next, before, after, m, i + 1)
    ensures AllNoOp(before, mid) && FlagOf(current, m[i].id) == m[i].communicationEnabled ==> AllNoOp(before, after)
  {
    hide FlagOf;
    LogGrows(before, mid, after, m, i);
    if DistinctServices(m) {
      forall k | 0 <= k <= i
        ensures after[|before| + k].outcome.NoOp? <==> FlagOf(flags, m[k].id) == m[k].communicationEnabled
      {
        if k < i { assert after[|before| + k] == mid[|before| + k]; }
      }
    }
  }

  /** A complete pass logs one row a service, and none of them a change exactly when every switch stood as asked. */
  lemma LogAllNoOpExactly(flags: map<Uuid, Admission.Row>, current: map<Uuid, Admission.Row>,
                          before: seq<Admission.HistoryRow>, after: seq<Admission.HistoryRow>, m: Manifest)
    requires DistinctServices(m) && LogSound(flags, current, before, after, m, |m|)
    ensures |after| == |before| + |m| && before == after[..|before|]
    ensures AllNoOp(before, after) <==>
            forall k | 0 <= k < |m| :: FlagOf(flags, m[k].id) == m[k].communicationEnabled
  {
    hide FlagOf;
    forall k | 0 <= k < |m| && AllNoOp(before, after) ensures FlagOf(flags, m[k].id) == m[k].communicationEnabled {
      assert after[|before| + k].outcome.NoOp?;
    }
    if forall k | 0 <= k < |m| :: FlagOf(flags, m[k].id) == m[k].communicationEnabled {
      forall j | |before| <= j < |after| ensures after[j].outcome.NoOp? {
        var k := j - |before|;
        assert after[|before| + k].outcome.NoOp? <==> FlagOf(flags, m[k].id) == m[k].communicationEnabled;
      }
    }
  }

  lemma LogUndisturbed(flags: map<Uuid, Admission.Row>, current: map<Uuid, Admission.Row>, next: map<Uuid, Admission.Row>,
                       before: seq<Admission.HistoryRow>, after: seq<Admission.HistoryRow>, m: Manifest, n: nat)
    requires LogSound(flags, current, before, after, m, n)
    requires forall id :: FlagOf(next, id) == FlagOf(current, id)
    ensures LogSound(flags, next, before, after, m, n)
  {
    hide FlagOf;
  }

  lemma LogNext(flags: map<Uuid, Admission.Row>, current: map<Uuid, Admission.Row>, next: map<Uuid, Admission.Row>,
                before: seq<Admission.HistoryRow>, mid: seq<Admission.HistoryRow>, after: seq<Admission.HistoryRow>,
                m: Manifest, i: nat)
    requires i < |m| && LogSound(flags, current, before, mid, m, i)
    requires after != mid ==>
               OneLogged(mid, after, m[i].id) &&
               (after[|mid|].outcome.NoOp? <==> FlagOf(current, m[i].id) == m[i].communicationEnabled)
    requires forall id | id != m[i].id || after == mid :: FlagOf(next, id) == FlagOf(current, id)
    ensures |after| == |mid| + (if after == mid then 0 else 1)
    ensures LogSound(flags, next, before, after, m, if after == mid then i else i + 1)
    ensures AllNoOp(before, mid) && FlagOf(current, m[i].id) == m[i].communicationEnabled ==> AllNoOp(before, after)
  {
    if after == mid {
      LogUndisturbed(flags, current, next, before, after, m, i);
    } else {
      LogStaysSound(flags, current, next, before, mid, after, m, i);
    }
  }

  lemma ReasonIsValid()
    ensures 1 <= |Admission.BTrim(REASON)| <= 1000
  {
    assert REASON[0] == 'r' && REASON[|REASON| - 1] == 'n';
  }

  /** With a new correlation ID the procedure always answers, sets the switch and appends one row saying so. */
  lemma FreshCall(env: Environment, flags: map<Uuid, Admission.Row>, history: seq<Admission.HistoryRow>,
                  id: Uuid, enabled: bool, correlation: Uuid, now: i64)
    requires forall h | h in history :: h.correlation != correlation
    requires now >= 0 && (id in flags ==> flags[id].updatedAt <= now)
    ensures var q := Admission.Request(id, enabled, Some(env.administrator), Some(REASON), correlation, now);
            var (after, answer) := Admission.Set(Admission.Store(flags, history), q);
            (answer.Ok? <==> AdministratorValid(env) && id in flags) &&
            (answer.Err? ==> after == Admission.Store(flags, history)) &&
            (answer.Ok? ==>
               |after.history| == |history| + 1 && after.history[..|history|] == history &&
               after.history[|history|].service == id && after.history[|history|].correlation == correlation &&
               (answer.value.outcome.NoOp? <==> flags[id].enabled == enabled) &&
               after.history[|history|].outcome == answer.value.outcome &&
               after.rows.Keys == flags.Keys && after.rows[id].enabled == enabled && after.rows[id].updatedAt <= now &&
               (forall other | other in flags && other != id :: after.rows[other] == flags[other]) &&
               (answer.value.outcome.NoOp? ==> after.rows == flags))
  {
    ReasonIsValid();
    hide Admission.BTrim;
  }

  /** What setting one switch does to the view. */
  lemma SwitchEffect(env: Environment, r: Rows, at: int, id: Uuid, enabled: bool, after: map<Uuid, Admission.Row>)
    requires AdministratorValid(env) && id in r.flags && after.Keys == r.flags.Keys && after[id].enabled == enabled
    requires forall other | other in r.flags && other != id :: after[other] == r.flags[other]
    ensures Effect(env, ViewOf(r, at), SetAdmission(id, enabled), ViewOf(r.(flags := after), at),
                   if r.flags[id].enabled == enabled then Unchanged else Changed)
  {
    hide AdministratorValid, LiveTriples;
    assert Flags(after) == Flags(r.flags)[id := enabled];
    if r.flags[id].enabled == enabled {
      assert Flags(r.flags)[id := enabled] == Flags(r.flags);
    } else {
      assert Flags(after)[id] != Flags(r.flags)[id];
    }
  }

  lemma SwitchFlags(flags: map<Uuid, Admission.Row>, after: map<Uuid, Admission.Row>, id: Uuid)
    requires id in flags && after.Keys == flags.Keys
    requires forall other | other in flags && other != id :: after[other] == flags[other]
    ensures FlagOf(flags, id) == flags[id].enabled
    ensures forall other | other != id :: FlagOf(after, other) == FlagOf(flags, other)
  {
  }

  /** The IDs still to be drawn stay unused. */
  lemma OneMoreRow(history: seq<Admission.HistoryRow>, after: seq<Admission.HistoryRow>, supply: seq<Uuid>, drawn: nat)
    requires 0 < drawn <= |supply| && |after| == |history| + 1 && after[..|history|] == history
    requires after[|history|].correlation == supply[drawn - 1]
    requires forall i, j | 0 <= i < j < |supply| :: supply[i] != supply[j]
    requires forall i, h | drawn <= i < |supply| && h in history :: h.correlation != supply[i]
    ensures forall i, h | drawn <= i < |supply| && h in after :: h.correlation != supply[i]
  {
    assert after == history + [after[|history|]];
  }

  lemma NoSwitch(env: Environment, r: Rows, at: int, id: Uuid, enabled: bool)
    requires !AdministratorValid(env) || id !in r.flags
    ensures Effect(env, ViewOf(r, at), SetAdmission(id, enabled), ViewOf(r, at), Failed)
  {
  }

  // ---- Single rows against the view ----

  lemma FlagsAfter(flags: map<Uuid, Admission.Row>, id: Uuid, row: Admission.Row)
    ensures Flags(flags[id := row]) == Flags(flags)[id := row.enabled]
  {
  }

  lemma LiveTriplesAfter(grants: seq<Grant>, g: Grant, at: int)
    ensures LiveTriples(grants + [g], at) == LiveTriples(grants, at) + (if Live(g, at) then {g.triple} else {})
  {
    var all := grants + [g];
    assert all[|grants|] == g;
    forall t | t in LiveTriples(grants, at) ensures t in LiveTriples(all, at) {
      var h :| h in grants && Live(h, at) && h.triple == t;
      assert h in all;
    }
  }

  lemma AlreadyLive(env: Environment, v: View, t: Triple)
    requires t in v.live
    ensures Effect(env, v, EnsureGrant(t), v, Unchanged)
  {
  }

  lemma UnresolvedFails(env: Environment, v: View, s: Statement)
    requires s.PutBinding? && env.resolve(s.namespace, s.account).None?
    ensures Effect(env, v, s, v, Failed)
  {
  }

  // ---- Where a pass has got to ----

  /** The services before the i-th are dealt with, and so is `done` of the i-th. */
  ghost predicate Progress(env: Environment, m: Manifest, i: nat, from: View, done: seq<Statement>, v: View) {
    i < |m| && done <= PlanFor(m[i]) && ApplyAll(env, from, Plan(m[..i]) + done) == Some(v)
  }

  ghost predicate Reached(env: Environment, m: Manifest, from: View, ran: seq<Statement>, v: View) {
    ran <= Plan(m) && ApplyAll(env, from, ran) == Some(v)
  }

  lemma ProgressReaches(env: Environment, m: Manifest, i: nat, from: View, done: seq<Statement>, v: View)
    requires Progress(env, m, i, from, done, v)
    ensures Reached(env, m, from, Plan(m[..i]) + done, v)
  {
    PlanPrefix(m, i, done, PlanFor(m[i])[|done|..]);
  }

  /** The first `i` services are dealt with. */
  ghost predicate Through(env: Environment, m: Manifest, i: nat, from: View, v: View) {
    i <= |m| && ApplyAll(env, from, Plan(m[..i])) == Some(v)
  }

  lemma ServiceBegins(env: Environment, m: Manifest, i: nat, from: View, v: View)
    requires i < |m| && Through(env, m, i, from, v)
    ensures Progress(env, m, i, from, [], v)
  {
    assert Plan(m[..i]) + [] == Plan(m[..i]);
  }

  lemma ServiceEnds(env: Environment, m: Manifest, i: nat, from: View, v: View)
    requires i < |m| && Progress(env, m, i, from, PlanFor(m[i]), v)
    ensures Through(env, m, i + 1, from, v)
  {
    assert m[..i + 1][..i] == m[..i] && m[..i + 1][i] == m[i];
  }

  lemma PlanGrows(m: Manifest, i: nat)
    requires i < |m|
    ensures |Plan(m[..i + 1])| == |Plan(m[..i])| + |PlanFor(m[i])| <= |Plan(m)|
  {
    assert m[..i + 1][..i] == m[..i] && m[..i + 1][i] == m[i];
    PlanPrefix(m, i, PlanFor(m[i]), []);
  }

  lemma PreludeSteps(s: ServiceSpec)
    ensures var p, a := PutIdentity(s.id, s.kind, s.displayName), SetAdmission(s.id, s.communicationEnabled);
            [] + [p] <= PlanFor(s) && Prelude(s) <= PlanFor(s) &&
            if s.namespace.Some? && s.account.Some? then
              var b := PutBinding(s.id, s.namespace.value, s.account.value);
              [] + [p] + [b] <= PlanFor(s) && [] + [p] + [b] + [a] == Prelude(s)
            else [] + [p] + [a] == Prelude(s)
  {
  }

  lemma PassBegins(env: Environment, m: Manifest, from: View)
    ensures Through(env, m, 0, from, from) && ReportSound(m, 0, map[], true) && AllEmpty(map[])
    ensures |Plan(m[..0])| == 0 && |Plan(m[..|m|])| == |Plan(m)|
  {
    assert m[..|m|] == m;
  }

  lemma ReconcileEnds(env: Environment, m: Manifest, from: View, v: View, changes: map<string, seq<Change>>)
    requires Through(env, m, |m|, from, v) && ReportSound(m, |m|, changes, v == from)
    ensures ApplyAll(env, from, Plan(m)) == Some(v) && changes.Keys == (set i | 0 <= i < |m| :: m[i].displayName)
    ensures DistinctNames(m) && AllEmpty(changes) ==> v == from
  {
    assert m[..|m|] == m;
  }

  lemma {:induction false} FailurePersists(env: Environment, v: View, a: seq<Statement>, b: seq<Statement>)
    requires a <= b && ApplyAll(env, v, a) == None
    ensures ApplyAll(env, v, b) == None
  {
    assert b == a + b[|a|..];
    ApplyAllSplits(env, v, a, b[|a|..]);
  }

  lemma ProgressContinues(env: Environment, m: Manifest, i: nat, from: View, done: seq<Statement>, before: View,
                          s: Statement, after: View, o: Outcome)
    requires Progress(env, m, i, from, done, before) && Effect(env, before, s, after, o)
    requires done + [s] <= PlanFor(m[i])
    ensures o.Failed? ==> ApplyAll(env, from, Plan(m)) == None
    ensures !o.Failed? ==> Progress(env, m, i, from, done + [s], after)
    ensures Settled(env, from, Plan(m)) && before == from ==> o.Unchanged?
  {
    hide Apply, Satisfied, PlanFor, Plan;
    var ran := Plan(m[..i]) + done;
    assert Plan(m[..i]) + (done + [s]) == ran + [s];
    assert (ran + [s])[..|ran|] == ran && (ran + [s])[|ran|] == s;
    PlanPrefix(m, i, done + [s], PlanFor(m[i])[|done| + 1..]);
    if o.Failed? { FailurePersists(env, from, ran + [s], Plan(m)); }
    if Settled(env, from, Plan(m)) && before == from {
      assert Plan(m)[|ran|] == s;
      SatisfiedIsFixed(env, from, s);
    }
  }

  // ---- What a pass reports ----

  function ChangeOf(env: Environment, s: Statement): Change {
    match s
    case PutIdentity(_, _, _) => IdentityChange
    case PutBinding(_, namespace, account) =>
      (match env.resolve(namespace, account) case None => BindingChange("") case Some(uid) => BindingChange(uid))
    case SetAdmission(_, enabled) => AdmissionChange(enabled)
    case EnsureGrant(triple) => GrantChange(GrantSpec(triple.action, triple.scope))
  }

  lemma EntriesOf(env: Environment, s: ServiceSpec)
    ensures ChangeOf(env, PutIdentity(s.id, s.kind, s.displayName)) == IdentityChange
    ensures ChangeOf(env, SetAdmission(s.id, s.communicationEnabled)) == AdmissionChange(s.communicationEnabled)
    ensures s.namespace.Some? && s.account.Some? && env.resolve(s.namespace.value, s.account.value).Some? ==>
              ChangeOf(env, PutBinding(s.id, s.namespace.value, s.account.value)) ==
              BindingChange(env.resolve(s.namespace.value, s.account.value).value)
  {
  }

  /** One entry for each statement that changes what is visible, in order. */
  function Reported(env: Environment, v: View, ss: seq<Statement>): seq<Change> {
    if ss == [] then []
    else
      var front, last := ss[..|ss| - 1], ss[|ss| - 1];
      var u := ApplyAll(env, v, front);
      if u.Some? && Apply(env, u.value, last) != u then Reported(env, v, front) + [ChangeOf(env, last)]
      else Reported(env, v, front)
  }

  /** From `from` the statements `done` lead to `v`, and this is what they changed. */
  ghost predicate ReportIs(env: Environment, from: View, done: seq<Statement>, v: View, changes: seq<Change>) {
    ApplyAll(env, from, done) == Some(v) && changes == Reported(env, from, done)
  }

  lemma ReportBegins(env: Environment, v: View)
    ensures ReportIs(env, v, [], v, [])
  {
  }

  lemma ReportContinues(env: Environment, from: View, done: seq<Statement>, before: View, changes: seq<Change>,
                        s: Statement, after: View, o: Outcome)
    requires ReportIs(env, from, done, before, changes) && Effect(env, before, s, after, o) && !o.Failed?
    ensures ReportIs(env, from, done + [s], after, if o.Changed? then changes + [ChangeOf(env, s)] else changes)
  {
    hide Apply;
    assert (done + [s])[..|done|] == done && (done + [s])[|done|] == s;
  }

  /** What a pass over `m` reports for its i-th service. */
  function ServiceReport(env: Environment, from: View, m: Manifest, i: nat): seq<Change>
    requires i < |m|
  {
    match ApplyAll(env, from, Plan(m[..i]))
    case None => []
    case Some(v) => Reported(env, v, PlanFor(m[i]))
  }

  /** Unless services share a display name, the report holds the entry of each of the first `n`. */
  ghost predicate ReportsFirst(env: Environment, from: View, m: Manifest, n: nat, changes: map<string, seq<Change>>) {
    n <= |m| && (DistinctNames(m) ==>
      forall k | 0 <= k < n ::
        m[k].displayName in changes && changes[m[k].displayName] == ServiceReport(env, from, m, k))
  }

  lemma ReportsNext(env: Environment, from: View, m: Manifest, n: nat, changes: map<string, seq<Change>>,
                    v: View, w: View, list: seq<Change>)
    requires ReportsFirst(env, from, m, n, changes) && n < |m|
    requires Through(env, m, n, from, v) && ReportIs(env, v, PlanFor(m[n]), w, list)
    ensures ReportsFirst(env, from, m, n + 1, changes[m[n].displayName := list])
  {
    hide ApplyAll, Plan, PlanFor, Reported;
    assert ServiceReport(env, from, m, n) == list;
  }

  lemma {:induction false} ReportedSplits(env: Environment, v: View, a: seq<Statement>, b: seq<Statement>)
    requires ApplyAll(env, v, a).Some?
    ensures Reported(env, v, a + b) == Reported(env, v, a) + Reported(env, ApplyAll(env, v, a).value, b)
  {
    hide Apply, ApplyAll, ChangeOf;
    if b == [] {
      assert a + b == a;
    } else {
      var n := |b| - 1;
      assert (a + b)[..|a| + n] == a + b[..n] && (a + b)[|a| + n] == b[n];
      ReportedSplits(env, v, a, b[..n]);
      ApplyAllSplits(env, v, a, b[..n]);
    }
  }

  predicate IdentityAsAsked(v: View, s: ServiceSpec) {
    s.id in v.identities && v.identities[s.id] == Identity(s.kind, s.displayName, true)
  }

  predicate BindingAsAsked(env: Environment, v: View, s: ServiceSpec)
    requires s.namespace.Some? && s.account.Some?
  {
    var uid := env.resolve(s.namespace.value, s.account.value);
    uid.Some? && s.id in v.bindings && v.bindings[s.id] == Binding(s.namespace.value, s.account.value, uid.value, true)
  }

  predicate SwitchAsAsked(v: View, s: ServiceSpec) {
    (s.id in v.enabled && v.enabled[s.id]) == s.communicationEnabled
  }

  lemma OneReported(env: Environment, v: View, s: Statement)
    requires Apply(env, v, s).Some?
    ensures Reported(env, v, [s]) == if Apply(env, v, s).value != v then [ChangeOf(env, s)] else []
  {
    hide Apply;
    OneApplied(env, v, s);
    assert [s][..0] == [] && ApplyAll(env, v, []) == Some(v);
  }

  lemma IdentityReported(env: Environment, v: View, s: ServiceSpec)
    requires v.identities.Keys <= v.enabled.Keys && Apply(env, v, PutIdentity(s.id, s.kind, s.displayName)).Some?
    ensures var w := Apply(env, v, PutIdentity(s.id, s.kind, s.displayName)).value;
            (w == v <==> IdentityAsAsked(v, s)) && w.bindings == v.bindings && w.live == v.live &&
            s.id in w.enabled && w.enabled[s.id] == (s.id in v.enabled && v.enabled[s.id])
  {
    var w := Apply(env, v, PutIdentity(s.id, s.kind, s.displayName)).value;
    if IdentityAsAsked(v, s) { assert w.identities == v.identities; }
    else { assert s.id in v.identities ==> w.identities[s.id] != v.identities[s.id]; }
  }

  lemma BindingReported(env: Environment, v: View, s: ServiceSpec)
    requires s.namespace.Some? && s.account.Some?
    requires Apply(env, v, PutBinding(s.id, s.namespace.value, s.account.value)).Some?
    ensures var w := Apply(env, v, PutBinding(s.id, s.namespace.value, s.account.value)).value;
            (w == v <==> BindingAsAsked(env, v, s)) && w.enabled == v.enabled && w.live == v.live
  {
    var w := Apply(env, v, PutBinding(s.id, s.namespace.value, s.account.value)).value;
    if !BindingAsAsked(env, v, s) { assert s.id in w.bindings && (s.id in v.bindings ==> w.bindings[s.id] != v.bindings[s.id]); }
  }

  lemma SwitchReported(env: Environment, v: View, s: ServiceSpec)
    requires s.id in v.enabled && Apply(env, v, SetAdmission(s.id, s.communicationEnabled)).Some?
    ensures var w := Apply(env, v, SetAdmission(s.id, s.communicationEnabled)).value;
            (w == v <==> SwitchAsAsked(v, s)) && w.live == v.live
  {
    var w := Apply(env, v, SetAdmission(s.id, s.communicationEnabled)).value;
    if SwitchAsAsked(v, s) { assert w.enabled == v.enabled; }
    else { assert w.enabled[s.id] != v.enabled[s.id]; }
  }

  lemma {:induction false} GrantsReported(env: Environment, v: View, s: ServiceSpec, n: nat)
    requires n <= |s.grants| && ApplyAll(env, v, GrantsOf(s)[..n]).Some?
    ensures ApplyAll(env, v, GrantsOf(s)[..n]).value.live == v.live + set k | 0 <= k < n :: TripleOf(s, s.grants[k])
    ensures forall c :: c in Reported(env, v, GrantsOf(s)[..n]) <==>
              exists k | 0 <= k < n :: c == GrantChange(s.grants[k]) && TripleOf(s, s.grants[k]) !in v.live
  {
    hide Apply;
    if n > 0 {
      var ss, t := GrantsOf(s)[..n], TripleOf(s, s.grants[n - 1]);
      assert ss[..n - 1] == GrantsOf(s)[..n - 1] && ss[n - 1] == EnsureGrant(t);
      GrantsReported(env, v, s, n - 1);
      GrantApplied(env, ApplyAll(env, v, ss[..n - 1]).value, t);
    }
  }

  lemma GrantApplied(env: Environment, v: View, t: Triple)
    requires Apply(env, v, EnsureGrant(t)).Some?
    ensures var w := Apply(env, v, EnsureGrant(t)).value; w.live == v.live + {t} && (w == v <==> t in v.live)
  {
  }

  /** The entries for identity, binding and switch: each is there exactly when that row was not yet as asked. */
  predicate PreludeChange(env: Environment, v: View, s: ServiceSpec, c: Change) {
    match c
    case IdentityChange => !IdentityAsAsked(v, s)
    case BindingChange(uid) =>
      s.namespace.Some? && s.account.Some? && env.resolve(s.namespace.value, s.account.value) == Some(uid) &&
      !BindingAsAsked(env, v, s)
    case AdmissionChange(enabled) => enabled == s.communicationEnabled && !SwitchAsAsked(v, s)
    case GrantChange(_) => false
  }

  lemma BindingStepReported(env: Environment, v: View, s: ServiceSpec, b: seq<Statement>)
    requires b == if s.namespace.Some? && s.account.Some? then [PutBinding(s.id, s.namespace.value, s.account.value)] else []
    requires ApplyAll(env, v, b).Some?
    ensures var w := ApplyAll(env, v, b).value; w.enabled == v.enabled && w.live == v.live
    ensures Reported(env, v, b) ==
            if s.namespace.Some? && s.account.Some? && !BindingAsAsked(env, v, s) then [ChangeOf(env, b[0])] else []
    ensures s.namespace.Some? && s.account.Some? ==> env.resolve(s.namespace.value, s.account.value).Some?
  {
    if b != [] {
      assert b[..0] == [] && ApplyAll(env, v, b) == Apply(env, v, b[0]);
      OneReported(env, v, b[0]);
      BindingReported(env, v, s);
    }
  }

  lemma PreludeReported(env: Environment, v: View, s: ServiceSpec)
    requires v.identities.Keys <= v.enabled.Keys && ApplyAll(env, v, Prelude(s)).Some?
    ensures ApplyAll(env, v, Prelude(s)).value.live == v.live
    ensures forall c :: c in Reported(env, v, Prelude(s)) <==> PreludeChange(env, v, s, c)
  {
    hide Apply, ApplyAll, Reported;
    var p, a := PutIdentity(s.id, s.kind, s.displayName), SetAdmission(s.id, s.communicationEnabled);
    var b := if s.namespace.Some? && s.account.Some? then [PutBinding(s.id, s.namespace.value, s.account.value)] else [];
    assert Prelude(s) == ([p] + b) + [a];
    ApplyAllSplits(env, v, [p] + b, [a]);
    ApplyAllSplits(env, v, [p], b);
    ReportedSplits(env, v, [p] + b, [a]);
    ReportedSplits(env, v, [p], b);
    OneApplied(env, v, p);
    OneReported(env, v, p);
    IdentityReported(env, v, s);
    var u := Apply(env, v, p).value;
    BindingStepReported(env, u, s, b);
    var w := ApplyAll(env, u, b).value;
    OneApplied(env, w, a);
    OneReported(env, w, a);
    SwitchReported(env, w, s);
  }

  lemma OneApplied(env: Environment, v: View, s: Statement)
    ensures ApplyAll(env, v, [s]) == Apply(env, v, s)
  {
    hide Apply;
    assert [s][..0] == [] && ApplyAll(env, v, []) == Some(v);
  }

  /** What is reported of a service: each row that was not yet as asked, and each grant of its that was not live. */
  lemma ServiceReportedExactly(env: Environment, v: View, s: ServiceSpec, c: Change)
    requires v.identities.Keys <= v.enabled.Keys && ApplyAll(env, v, PlanFor(s)).Some?
    ensures c in Reported(env, v, PlanFor(s)) <==>
            PreludeChange(env, v, s, c) ||
            exists k | 0 <= k < |s.grants| :: c == GrantChange(s.grants[k]) && TripleOf(s, s.grants[k]) !in v.live
  {
    hide Apply, ApplyAll, Reported, Prelude;
    ApplyAllSplits(env, v, Prelude(s), GrantsOf(s));
    ReportedSplits(env, v, Prelude(s), GrantsOf(s));
    PreludeReported(env, v, s);
    assert GrantsOf(s)[..|s.grants|] == GrantsOf(s);
    GrantsReported(env, ApplyAll(env, v, Prelude(s)).value, s, |s.grants|);
  }

  predicate AllEmpty(changes: map<string, seq<Change>>) { forall name | name in changes :: changes[name] == [] }

  lemma OneMoreEntry(changes: map<string, seq<Change>>, name: string, list: seq<Change>)
    ensures AllEmpty(changes) && list == [] ==> AllEmpty(changes[name := list])
    ensures AllEmpty(changes[name := list]) ==> list == []
    ensures AllEmpty(changes[name := list]) && name !in changes ==> AllEmpty(changes)
  {
    assert changes[name := list][name] == list;
    assert forall other | other in changes && other != name :: changes[name := list][other] == changes[other];
  }

  /** One entry a display name so far; if no two services share one, empty entries mean that nothing changed. */
  ghost predicate ReportSound(m: Manifest, n: nat, changes: map<string, seq<Change>>, same: bool) {
    n <= |m| && changes.Keys == (set k | 0 <= k < n :: m[k].displayName) && (DistinctNames(m) && AllEmpty(changes) ==> same)
  }

  lemma ReportGrows(m: Manifest, n: nat, changes: map<string, seq<Change>>, same: bool, list: seq<Change>, still: bool)
    requires n < |m| && ReportSound(m, n, changes, same) && (list == [] && same ==> still)
    ensures ReportSound(m, n + 1, changes[m[n].displayName := list], still)
    ensures AllEmpty(changes) && list == [] ==> AllEmpty(changes[m[n].displayName := list])
  {
    OneMoreEntry(changes, m[n].displayName, list);
    assert DistinctNames(m) ==> m[n].displayName !in changes;
  }

  ghost predicate DistinctNames(m: Manifest) {
    forall i, j | 0 <= i < j < |m| :: m[i].displayName != m[j].displayName
  }

  // ---- Withdrawing what the manifest omits ----

  datatype Withdrawn = Withdrawn(bindings: set<Uuid>, grants: seq<Grant>)

  /** The report of a run that did nothing. */
  predicate Silent(prune: bool, report: (map<string, seq<Change>>, Option<Withdrawn>)) {
    AllEmpty(report.0) && report.1 == if prune then Some(Withdrawn({}, [])) else None
  }

  function Kept(bindings: map<Uuid, Binding>, m: Manifest): map<Uuid, Binding> {
    map id | id in bindings :: if Mentioned(m, id) then bindings[id] else bindings[id].(enabled := false)
  }

  /** `after` is `before` with some of the grants the manifest omits revoked. */
  ghost predicate Withdrawing(m: Manifest, before: seq<Grant>, after: seq<Grant>) {
    |after| == |before| &&
    forall i | 0 <= i < |before| ::
      after[i] == before[i] ||
      (before[i].revokedAt.None? && before[i].triple !in Triples(m) &&
       after[i].revokedAt.Some? && after[i] == before[i].(revokedAt := after[i].revokedAt))
  }

  /** The rows of `before` that are not as they were. */
  function Differing(before: seq<Grant>, after: seq<Grant>): seq<Grant>
    requires |before| == |after|
  {
    if before == [] then []
    else
      var n := |before| - 1;
      if after[n] != before[n] then Differing(before[..n], after[..n]) + [before[n]]
      else Differing(before[..n], after[..n])
  }

  lemma DifferingNext(before: seq<Grant>, after: seq<Grant>, n: nat)
    requires |before| == |after| && n < |before|
    ensures Differing(before[..n + 1], after[..n + 1]) ==
            if after[n] != before[n] then Differing(before[..n], after[..n]) + [before[n]]
            else Differing(before[..n], after[..n])
  {
    assert before[..n + 1][..n] == before[..n] && after[..n + 1][..n] == after[..n];
  }

  lemma WithdrawnNone(m: Manifest, grants: seq<Grant>)
    ensures Withdrawing(m, grants, grants)
  {
  }

  /** The loop over the grants read at its start has come to the j-th and withdrawn `revoked`. */
  ghost predicate RevokedSoFar(m: Manifest, snapshot: seq<Grant>, grants: seq<Grant>, j: nat, revoked: seq<Grant>) {
    j <= |snapshot| && Withdrawing(m, snapshot, grants) && revoked == Differing(snapshot[..j], grants[..j]) &&
    (forall k | j <= k < |snapshot| :: grants[k] == snapshot[k]) &&
    (forall k | 0 <= k < j :: grants[k].revokedAt.None? ==> grants[k].triple in Triples(m)) &&
    (revoked == [] <==> grants == snapshot) && (Unrevoked(snapshot) <= Triples(m) ==> grants == snapshot)
  }

  lemma RevokeBegins(m: Manifest, snapshot: seq<Grant>)
    ensures RevokedSoFar(m, snapshot, snapshot, 0, []) && Withdrawing(m, snapshot, snapshot)
  {
  }

  lemma RevokeSkips(m: Manifest, snapshot: seq<Grant>, grants: seq<Grant>, j: nat, revoked: seq<Grant>)
    requires RevokedSoFar(m, snapshot, grants, j, revoked) && j < |snapshot|
    requires snapshot[j].revokedAt.Some? || snapshot[j].triple in Triples(m)
    ensures RevokedSoFar(m, snapshot, grants, j + 1, revoked)
  {
    DifferingNext(snapshot, grants, j);
    hide Triples, Differing, Unrevoked;
  }

  lemma RevokeNext(m: Manifest, snapshot: seq<Grant>, grants: seq<Grant>, j: nat, revoked: seq<Grant>, at: int)
    requires RevokedSoFar(m, snapshot, grants, j, revoked) && j < |snapshot|
    requires snapshot[j].revokedAt.None? && snapshot[j].triple !in Triples(m)
    ensures !(Unrevoked(snapshot) <= Triples(m)) && j < |grants| && Withdrawing(m, snapshot, grants)
    ensures RevokedSoFar(m, snapshot, grants[j := grants[j].(revokedAt := Some(at))], j + 1, revoked + [snapshot[j]])
  {
    var next := grants[j := grants[j].(revokedAt := Some(at))];
    assert snapshot[j] in snapshot && snapshot[j].triple in Unrevoked(snapshot);
    assert next[..j] == grants[..j] && next[j] != snapshot[j];
    DifferingNext(snapshot, next, j);
    hide Triples, Differing, Unrevoked;
  }

  lemma RevokeEnds(m: Manifest, snapshot: seq<Grant>, grants: seq<Grant>, revoked: seq<Grant>)
    requires RevokedSoFar(m, snapshot, grants, |snapshot|, revoked)
    ensures Withdrawing(m, snapshot, grants) && Unrevoked(grants) <= Triples(m)
    ensures revoked == Differing(snapshot, grants) && (revoked == [] <==> grants == snapshot)
    ensures Unrevoked(snapshot) <= Triples(m) ==> grants == snapshot
  {
    hide Triples, Differing;
    assert snapshot[..|snapshot|] == snapshot && grants[..|snapshot|] == grants;
  }

  lemma NoneDisabled(before: map<Uuid, Binding>, after: map<Uuid, Binding>, m: Manifest, disabled: set<Uuid>)
    requires after == Kept(before, m) && disabled == set id | id in before && before[id] != after[id]
    ensures disabled == {} <==> after == before
  {
    if disabled == {} {
      forall id | id in before ensures after[id] == before[id] { assert id !in disabled; }
    }
  }

  lemma WithdrawingKeepsWanted(m: Manifest, before: seq<Grant>, after: seq<Grant>, at: int)
    requires Withdrawing(m, before, after)
    ensures LiveTriples(after, at) <= LiveTriples(before, at) <= LiveTriples(after, at) + (LiveTriples(before, at) - Triples(m))
    ensures Unrevoked(after) <= Unrevoked(before) <= Unrevoked(after) + (Unrevoked(before) - Triples(m))
  {
    hide Triples;
    forall t | t in LiveTriples(after, at) ensures t in LiveTriples(before, at) {
      var i :| 0 <= i < |after| && Live(after[i], at) && after[i].triple == t;
      assert before[i] in before && after[i] == before[i];
    }
    forall t | t in LiveTriples(before, at) && t in Triples(m) ensures t in LiveTriples(after, at) {
      var i :| 0 <= i < |before| && Live(before[i], at) && before[i].triple == t;
      assert after[i] in after && after[i] == before[i];
    }
    forall t | t in Unrevoked(after) ensures t in Unrevoked(before) {
      var i :| 0 <= i < |after| && after[i].revokedAt.None? && after[i].triple == t;
      assert before[i] in before && after[i] == before[i];
    }
    forall t | t in Unrevoked(before) && t in Triples(m) ensures t in Unrevoked(after) {
      var i :| 0 <= i < |before| && before[i].revokedAt.None? && before[i].triple == t;
      assert after[i] in after && after[i] == before[i];
    }
  }

  // ---- Where every run is heading ----

  function Pruned(v: View, m: Manifest): View {
    v.(bindings := Kept(v.bindings, m), live := v.live * Triples(m))
  }

  /** What a run that completes leaves visible; `None` when it cannot complete. */
  function Destination(env: Environment, m: Manifest, prune: bool, v: View): Option<View> {
    match ApplyAll(env, v, Plan(m))
    case None => None
    case Some(w) => Some(if prune then Pruned(w, m) else w)
  }

  lemma StoppedPassKeepsDestination(env: Environment, m: Manifest, prune: bool, v: View, ran: seq<Statement>, u: View)
    requires Agreeing(Plan(m)) && Reached(env, m, v, ran, u)
    ensures Destination(env, m, prune, u) == Destination(env, m, prune, v)
  {
    assert Plan(m)[..|ran|] == ran;
    RestartMakesNoDifference(env, v, Plan(m), |ran|);
  }

  /** `u` is `w` with some of what the manifest omits withdrawn. */
  ghost predicate PartlyPruned(m: Manifest, w: View, u: View) {
    u.identities == w.identities && u.enabled == w.enabled &&
    (u.bindings == w.bindings || u.bindings == Kept(w.bindings, m)) &&
    u.live <= w.live <= u.live + (w.live - Triples(m))
  }

  lemma PartlyPrunedSatisfies(env: Environment, m: Manifest, w: View, u: View, s: Statement)
    requires PartlyPruned(m, w, u) && InPlan(m, s) && Satisfied(env, w, s)
    ensures Satisfied(env, u, s)
  {
    StatementTouchesMentioned(m, s);
    hide Triples, InPlan;
    if s.PutBinding? { assert Mentioned(m, s.id); }
  }

  lemma PrunedStaysSettled(env: Environment, m: Manifest, w: View, u: View)
    requires Settled(env, w, Plan(m)) && PartlyPruned(m, w, u)
    ensures Settled(env, u, Plan(m))
  {
    forall s | s in Plan(m) ensures Satisfied(env, u, s) {
      PlanIsFromServices(m, s);
      PartlyPrunedSatisfies(env, m, w, u, s);
    }
  }

  lemma StoppedPruneKeepsDestination(env: Environment, m: Manifest, v: View, w: View, u: View)
    requires Agreeing(Plan(m)) && ApplyAll(env, v, Plan(m)) == Some(w) && PartlyPruned(m, w, u)
    ensures Destination(env, m, true, u) == Destination(env, m, true, v) && Settled(env, u, Plan(m))
  {
    ApplyAllSettles(env, v, Plan(m));
    PrunedStaysSettled(env, m, w, u);
    SettledIsFixed(env, u, Plan(m));
    KeptTwice(m, w, u);
  }

  lemma PruneArrives(env: Environment, m: Manifest, v: View, w: View, held: seq<Grant>, left: seq<Grant>, at: int)
    requires Agreeing(Plan(m)) && ApplyAll(env, v, Plan(m)) == Some(w)
    requires w.live == LiveTriples(held, at) && Withdrawing(m, held, left) && Unrevoked(left) <= Triples(m)
    ensures Unrevoked(left) == Triples(m)
  {
    PlanReconciles(env, m, v);
    WithdrawingKeepsWanted(m, held, left, at);
    hide Triples;
    forall t | t in Triples(m) ensures t in Unrevoked(left) {
      assert t in LiveTriples(left, at);
    }
  }

  lemma PruneIsExact(m: Manifest, held: seq<Grant>, left: seq<Grant>, at: int)
    requires Withdrawing(m, held, left) && Unrevoked(left) <= Triples(m)
    ensures LiveTriples(left, at) == LiveTriples(held, at) * Triples(m)
  {
    WithdrawingKeepsWanted(m, held, left, at);
    hide Triples;
    forall t | t in LiveTriples(left, at) ensures t in Triples(m) { assert t in Unrevoked(left); }
  }

  lemma KeptTwice(m: Manifest, w: View, u: View)
    requires PartlyPruned(m, w, u)
    ensures Pruned(u, m) == Pruned(w, m)
  {
    hide Triples;
    assert u.live * Triples(m) == w.live * Triples(m);
    assert Kept(Kept(w.bindings, m), m) == Kept(w.bindings, m);
  }

  lemma KeptStays(bindings: map<Uuid, Binding>, m: Manifest)
    ensures Kept(Kept(bindings, m), m) == Kept(bindings, m)
  {
  }

  lemma SettledFlag(env: Environment, m: Manifest, r: Rows, at: int, i: nat)
    requires i < |m| && Settled(env, ViewOf(r, at), Plan(m))
    ensures FlagOf(r.flags, m[i].id) == m[i].communicationEnabled
  {
    SettledAchieves(env, m, ViewOf(r, at), i);
  }

  /**
   * The tables between `start` and `horizon`, an interval in which no grant expires and the clock never falls. Random
   * IDs come from `supply`, all different and none of them in the history yet.
   */
  class Database {
    var identities: map<Uuid, Identity>
    var bindings: map<Uuid, Binding>
    var flags: map<Uuid, Admission.Row>
    var grants: seq<Grant>
    var history: seq<Admission.HistoryRow>
    var drawn: nat
    var now: i64
    const supply: seq<Uuid>
    const start: i64
    const horizon: i64

    /** What a run is about; the admission history is kept apart. */
    function Contents(): Rows
      reads this
    {
      Rows(identities, bindings, flags, grants)
    }

    predicate Valid()
      reads this
    {
      0 <= start <= now <= horizon && identities.Keys <= flags.Keys &&
      (forall id | id in flags :: flags[id].updatedAt <= now) && Steady() && Supplied()
    }

    predicate Steady()
      reads this
    {
      forall g | g in grants && g.validUntil.Some? :: !(start < g.validUntil.value <= horizon)
    }

    predicate Supplied()
      reads this
    {
      drawn <= |supply| && (forall i, j | 0 <= i < j < |supply| :: supply[i] != supply[j]) &&
      forall i, h | drawn <= i < |supply| && h in history :: h.correlation != supply[i]
    }

    function Visible(): View
      reads this
    {
      ViewOf(Contents(), start)
    }

    constructor (rows: Rows, history: seq<Admission.HistoryRow>, supply: seq<Uuid>, start: i64, horizon: i64)
      requires 0 <= start <= horizon && rows.identities.Keys <= rows.flags.Keys
      requires forall id | id in rows.flags :: rows.flags[id].updatedAt <= start
      requires forall g | g in rows.grants && g.validUntil.Some? :: !(start < g.validUntil.value <= horizon)
      requires forall i, j | 0 <= i < j < |supply| :: supply[i] != supply[j]
      requires forall i, h | 0 <= i < |supply| && h in history :: h.correlation != supply[i]
      ensures Valid() && Contents() == rows && this.history == history && this.supply == supply && drawn == 0
      ensures this.start == start && this.horizon == horizon
    {
      identities, bindings, flags, grants := rows.identities, rows.bindings, rows.flags, rows.grants;
      this.history, this.supply, drawn := history, supply, 0;
      now, this.start, this.horizon := start, start, horizon;
    }

    /** A statement reads the clock once. */
    method Tick()
      requires Valid()
      modifies this`now
      ensures Valid() && old(now) <= now
    {
      var t :| now <= t <= horizon;
      now := t;
    }

    method PutIdentityRow(env: Environment, s: Statement) returns (o: Outcome)
      requires Valid() && s.PutIdentity?
      modifies this`identities, this`flags, this`now
      ensures forall id :: FlagOf(flags, id) == old(FlagOf(flags, id))
      ensures Valid() && Effect(env, old(Visible()), s, Visible(), o)
      ensures !o.Changed? ==> Contents() == old(Contents())
    {
      Tick();
      if !env.legal(s) { return Failed; }
      var row := Identity(s.kind, s.displayName, true);
      if s.id !in identities {
        identities := identities[s.id := row];
        if s.id !in flags {
          FlagsAfter(flags, s.id, Admission.Row(false, 0, now));
          flags := flags[s.id := Admission.Row(false, 0, now)];
        }
        assert s.id in identities && s.id !in old(identities);
        return Changed;
      }
      if identities[s.id] == row {
        assert identities[s.id := row] == identities;
        return Unchanged;
      }
      identities := identities[s.id := row];
      assert identities[s.id] != old(identities)[s.id];
      return Changed;
    }

    method PutBindingRow(env: Environment, s: Statement, uid: string) returns (o: Outcome)
      requires Valid() && s.PutBinding? && env.resolve(s.namespace, s.account) == Some(uid)
      modifies this`bindings, this`now
      ensures Valid() && Effect(env, old(Visible()), s, Visible(), o)
      ensures !o.Changed? ==> Contents() == old(Contents())
    {
      Tick();
      var row := Binding(s.namespace, s.account, uid, true);
      if !env.legal(s) { return Failed; }
      if s.id in bindings && bindings[s.id] == row { return Unchanged; }
      if s.id !in identities || Taken(bindings, s.id, row) { return Failed; }
      bindings := bindings[s.id := row];
      assert s.id in old(bindings) ==> bindings[s.id] != old(bindings)[s.id];
      assert bindings != old(bindings);
      return Changed;
    }

    method SetAdmissionRow(env: Environment, s: Statement) returns (o: Outcome)
      requires Valid() && s.SetAdmission? && drawn < |supply|
      modifies this`flags, this`history, this`drawn, this`now
      ensures Valid() && Effect(env, old(Visible()), s, Visible(), o)
      ensures !o.Changed? ==> Contents() == old(Contents())
      ensures drawn == old(drawn) + 1
      ensures o.Failed? ==> history == old(history)
      ensures !o.Failed? ==> OneLogged(old(history), history, s.id)
      ensures !o.Failed? ==> (history[|old(history)|].outcome.NoOp? <==> old(FlagOf(flags, s.id)) == s.enabled)
      ensures forall id | id != s.id :: FlagOf(flags, id) == old(FlagOf(flags, id))
    {
      hide Admission.Set, AdministratorValid, ViewOf, Effect, FlagOf;
      Tick();
      var correlation := supply[drawn];
      FreshCall(env, flags, history, s.id, s.enabled, correlation, now);
      var q := Admission.Request(s.id, s.enabled, Some(env.administrator), Some(REASON), correlation, now);
      var (after, answer) := Admission.Set(Admission.Store(flags, history), q);
      drawn := drawn + 1;
      if answer.Err? {
        NoSwitch(env, Contents(), start, s.id, s.enabled);
        return Failed;
      }
      SwitchEffect(env, Contents(), start, s.id, s.enabled, after.rows);
      SwitchFlags(flags, after.rows, s.id);
      OneMoreRow(history, after.history, supply, drawn);
      flags, history := after.rows, after.history;
      return if answer.value.outcome.NoOp? then Unchanged else Changed;
    }

    method CountLive(t: Triple) returns (some: bool)
      requires Valid()
      modifies this`now
      ensures Valid() && (some <==> t in Visible().live)
    {
      Tick();
      some := exists g | g in grants :: g.triple == t && Live(g, now);
      assert forall g | g in grants :: Live(g, now) <==> Live(g, start);
    }

    method CreateGrant(env: Environment, t: Triple) returns (o: Outcome)
      requires Valid() && t !in Visible().live
      modifies this`grants, this`now
      ensures Valid() && Effect(env, old(Visible()), EnsureGrant(t), Visible(), o)
      ensures !o.Changed? ==> Contents() == old(Contents())
    {
      Tick();
      if !env.legal(EnsureGrant(t)) || t.source !in identities { return Failed; }
      var g := Grant(t, None, 0, None, None);
      LiveTriplesAfter(grants, g, start);
      grants := grants + [g];
      return Changed;
    }

    // ---- The loops ----

    /** What happened to the history while one statement was run. */
    twostate predicate Recorded(s: Statement)
      reads this
    {
      if s.SetAdmission? then
        OneLogged(old(history), history, s.id) &&
        (history[|old(history)|].outcome.NoOp? <==> FlagOf(old(flags), s.id) == s.enabled)
      else history == old(history)
    }

    /** One statement other than a grant, if it is not the one before which the crash comes. */
    method RunStatement(env: Environment, s: Statement, budget: nat,
                        ghost m: Manifest, ghost i: nat, ghost from: View, ghost done: seq<Statement>)
      returns (changed: Run<bool>, left: nat)
      requires Valid() && Progress(env, m, i, from, done, Visible()) && done + [s] <= PlanFor(m[i])
      requires !s.EnsureGrant? && (s.SetAdmission? ==> drawn < |supply|)
      modifies this`identities, this`bindings, this`flags, this`history, this`drawn, this`now
      ensures Valid() && left <= budget <= left + 1
      ensures drawn <= old(drawn) + (if s.SetAdmission? then 1 else 0)
      ensures changed.Completed? ==> Progress(env, m, i, from, done + [s], Visible())
      ensures changed.Completed? ==> Effect(env, old(Visible()), s, Visible(), if changed.value then Changed else Unchanged)
      ensures changed.Completed? ==> Recorded(s) && (s.SetAdmission? ==> history != old(history))
      ensures changed.Completed? && s.PutBinding? ==> env.resolve(s.namespace, s.account).Some?
      ensures !changed.Completed? ==> history == old(history)
      ensures changed == Completed(false) ==> Contents() == old(Contents())
      ensures changed.Error? ==> ApplyAll(env, from, Plan(m)) == None
      ensures changed.Stopped? ==> budget == 0
      ensures !changed.Completed? ==> Contents() == old(Contents())
      ensures Settled(env, from, Plan(m)) && old(Visible()) == from && changed.Completed? ==> !changed.value
      ensures forall id | !(s.SetAdmission? && id == s.id) || !changed.Completed? :: FlagOf(flags, id) == old(FlagOf(flags, id))
    {
      hide Apply, Settled, Plan, ApplyAll, ViewOf, Satisfied, FlagOf, Effect, Progress;
      left := budget;
      ghost var before := Visible();
      if s.PutBinding? && env.resolve(s.namespace, s.account).None? {
        UnresolvedFails(env, before, s);
        ProgressContinues(env, m, i, from, done, before, s, before, Failed);
        return Error, left;
      }
      if left == 0 { return Stopped, left; }
      left := left - 1;
      var o;
      if s.PutIdentity? {
        o := PutIdentityRow(env, s);
      } else if s.PutBinding? {
        o := PutBindingRow(env, s, env.resolve(s.namespace, s.account).value);
      } else {
        o := SetAdmissionRow(env, s);
      }
      ProgressContinues(env, m, i, from, done, before, s, Visible(), o);
      if o.Failed? { return Error, left; }
      changed := Completed(o.Changed?);
    }

    /** Identity, binding and admission of one service. */
    method ReconcilePrelude(env: Environment, spec: ServiceSpec, budget: nat, ghost m: Manifest, ghost i: nat, ghost from: View)
      returns (applied: Run<seq<Change>>, left: nat)
      requires Valid() && i < |m| && spec == m[i] && Progress(env, m, i, from, [], Visible()) && drawn < |supply|
      modifies this`identities, this`bindings, this`flags, this`history, this`drawn, this`now
      ensures Valid() && left <= budget && drawn <= old(drawn) + 1
      ensures applied.Completed? ==> Recorded(SetAdmission(spec.id, spec.communicationEnabled)) && history != old(history)
      ensures !applied.Completed? ==> history == old(history)
      ensures forall id | id != spec.id || history == old(history) :: FlagOf(flags, id) == old(FlagOf(flags, id))
      ensures applied.Completed? ==> Progress(env, m, i, from, Prelude(spec), Visible())
      ensures applied.Completed? ==> ReportIs(env, old(Visible()), Prelude(spec), Visible(), applied.value)
      ensures applied.Completed? ==> left + |Prelude(spec)| >= budget
      ensures applied.Completed? && applied.value == [] ==> Visible() == old(Visible())
      ensures applied.Error? ==> ApplyAll(env, from, Plan(m)) == None
      ensures applied.Stopped? ==> budget < |Prelude(spec)|
      ensures !applied.Completed? ==> exists ran :: Reached(env, m, from, ran, Visible())
      ensures Settled(env, from, Plan(m)) && old(Visible()) == from ==>
                Contents() == old(Contents()) && (applied.Completed? ==> applied.value == [])
    {
      hide Apply, Settled, Plan, ApplyAll, ViewOf, Satisfied, FlagOf, Progress, Reached, OneLogged, Valid, Prelude, PlanFor,
        ReportIs, Effect, ChangeOf;
      PreludeSteps(spec);
      EntriesOf(env, spec);
      ghost var begun, before := Visible(), Visible();
      ReportBegins(env, begun);
      ghost var done: seq<Statement> := [];
      var changes: seq<Change> := [];

      var s := PutIdentity(spec.id, spec.kind, spec.displayName);
      var changed;
      changed, left := RunStatement(env, s, budget, m, i, from, done);
      if !changed.Completed? {
        ProgressReaches(env, m, i, from, done, Visible());
        return if changed.Error? then Error else Stopped, left;
      }
      ReportContinues(env, begun, done, before, changes, s, Visible(), if changed.value then Changed else Unchanged);
      done, before := done + [s], Visible();
      if changed.value { changes := changes + [IdentityChange]; }

      if spec.namespace.Some? && spec.account.Some? {
        s := PutBinding(spec.id, spec.namespace.value, spec.account.value);
        changed, left := RunStatement(env, s, left, m, i, from, done);
        if !changed.Completed? {
          ProgressReaches(env, m, i, from, done, Visible());
          return if changed.Error? then Error else Stopped, left;
        }
        ReportContinues(env, begun, done, before, changes, s, Visible(), if changed.value then Changed else Unchanged);
        done, before := done + [s], Visible();
        if changed.value { changes := changes + [BindingChange(env.resolve(s.namespace, s.account).value)]; }
      }

      s := SetAdmission(spec.id, spec.communicationEnabled);
      label Setting:
      changed, left := RunStatement(env, s, left, m, i, from, done);
      if !changed.Completed? {
        ProgressReaches(env, m, i, from, done, Visible());
        return if changed.Error? then Error else Stopped, left;
      }
      assert Recorded@Setting(s);
      ReportContinues(env, begun, done, before, changes, s, Visible(), if changed.value then Changed else Unchanged);
      assert done + [s] == Prelude(spec);
      if changed.value { changes := changes + [AdmissionChange(spec.communicationEnabled)]; }
      applied := Completed(changes);
    }

    /** One service; `budget` counts the statements left before the crash. */
    method ReconcileService(env: Environment, spec: ServiceSpec, budget: nat, ghost m: Manifest, ghost i: nat, ghost from: View)
      returns (applied: Run<seq<Change>>, left: nat)
      requires Valid() && i < |m| && spec == m[i] && Progress(env, m, i, from, [], Visible()) && drawn < |supply|
      modifies this
      ensures Valid() && left <= budget && drawn <= old(drawn) + 1
      ensures applied.Completed? ==> history != old(history)
      ensures history != old(history) ==> Recorded(SetAdmission(spec.id, spec.communicationEnabled))
      ensures forall id | id != spec.id || history == old(history) :: FlagOf(flags, id) == old(FlagOf(flags, id))
      ensures applied.Completed? ==> Progress(env, m, i, from, PlanFor(spec), Visible())
      ensures applied.Completed? ==> ReportIs(env, old(Visible()), PlanFor(spec), Visible(), applied.value)
      ensures applied.Completed? ==> left + 2 * |PlanFor(spec)| >= budget
      ensures applied.Completed? && applied.value == [] ==> Visible() == old(Visible())
      ensures applied.Error? ==> ApplyAll(env, from, Plan(m)) == None
      ensures applied.Stopped? ==> budget < 2 * |PlanFor(spec)|
      ensures !applied.Completed? ==> exists ran :: Reached(env, m, from, ran, Visible())
      ensures Settled(env, from, Plan(m)) && old(Visible()) == from ==>
                Contents() == old(Contents()) && (applied.Completed? ==> applied.value == [])
    {
      hide Apply, Settled, Plan, ApplyAll, ViewOf, Satisfied, FlagOf, Progress, Reached, OneLogged, Valid, Prelude, ReportIs;
      ghost var begun := Visible();
      var prelude;
      prelude, left := ReconcilePrelude(env, spec, budget, m, i, from);
      if !prelude.Completed? { return prelude, left; }
      applied, left := ReconcileGrants(env, spec, prelude.value, left, m, i, from, begun);
    }

    method ReconcileGrants(env: Environment, spec: ServiceSpec, already: seq<Change>, budget: nat,
                           ghost m: Manifest, ghost i: nat, ghost from: View, ghost begun: View)
      returns (applied: Run<seq<Change>>, left: nat)
      requires Valid() && i < |m| && spec == m[i] && Progress(env, m, i, from, Prelude(spec), Visible())
      requires ReportIs(env, begun, Prelude(spec), Visible(), already)
      modifies this`grants, this`now
      ensures Valid() && left <= budget
      ensures applied.Completed? ==> Progress(env, m, i, from, PlanFor(spec), Visible()) && already <= applied.value
      ensures applied.Completed? ==> ReportIs(env, begun, PlanFor(spec), Visible(), applied.value)
      ensures applied.Completed? ==> left + 2 * |spec.grants| >= budget
      ensures applied.Completed? && applied.value == already ==> Visible() == old(Visible())
      ensures applied.Error? ==> ApplyAll(env, from, Plan(m)) == None
      ensures applied.Stopped? ==> budget < 2 * |spec.grants|
      ensures !applied.Completed? ==> exists ran :: Reached(env, m, from, ran, Visible())
      ensures Settled(env, from, Plan(m)) && old(Visible()) == from ==>
                Contents() == old(Contents()) && (applied.Completed? ==> applied.value == already)
    {
      hide Apply, Settled, Plan, ApplyAll, Flags, LiveTriples, Satisfied, Prelude, ReportIs, Progress;
      ghost var done := Prelude(spec);
      var changes := already;
      left := budget;
      for j := 0 to |spec.grants|
        invariant Valid() && left <= budget && left + 2 * j >= budget
        invariant done == Prelude(spec) + GrantsOf(spec)[..j]
        invariant Progress(env, m, i, from, done, Visible()) && ReportIs(env, begun, done, Visible(), changes)
        invariant already <= changes && (changes == already ==> Visible() == old(Visible()))
        invariant Settled(env, from, Plan(m)) && old(Visible()) == from ==> Contents() == old(Contents()) && changes == already
      {
        ghost var before := Visible();
        var t := TripleOf(spec, spec.grants[j]);
        ghost var s := EnsureGrant(t);
        assert GrantsOf(spec)[..j + 1] == GrantsOf(spec)[..j] + [s];
        assert done + [s] == Prelude(spec) + GrantsOf(spec)[..j + 1];
        assert done + [s] <= PlanFor(m[i]);

        if left == 0 { ProgressReaches(env, m, i, from, done, Visible()); return Stopped, left; }
        left := left - 1;
        var some := CountLive(t);
        var o := Unchanged;
        if !some {
          if left == 0 { ProgressReaches(env, m, i, from, done, Visible()); return Stopped, left; }
          left := left - 1;
          o := CreateGrant(env, t);
        } else {
          AlreadyLive(env, before, t);
        }
        ProgressContinues(env, m, i, from, done, before, s, Visible(), o);
        if o.Failed? { ProgressReaches(env, m, i, from, done, Visible()); return Error, left; }
        ReportContinues(env, begun, done, before, changes, s, Visible(), o);
        done := done + [s];
        if o.Changed? { changes := changes + [GrantChange(spec.grants[j])]; }
      }
      assert GrantsOf(spec)[..|spec.grants|] == GrantsOf(spec);
      applied := Completed(changes);
    }

    /** The i-th service, and what it means for the pass. */
    method ReconcileNext(env: Environment, m: Manifest, i: nat, budget: nat, ghost from: View,
                         ghost flags0: map<Uuid, Admission.Row>, ghost history0: seq<Admission.HistoryRow>)
      returns (applied: Run<seq<Change>>, left: nat)
      requires Valid() && i < |m| && Through(env, m, i, from, Visible()) && drawn < |supply|
      requires |history| == |history0| + i && LogSound(flags0, flags, history0, history, m, i)
      modifies this
      ensures Valid() && left <= budget && drawn <= old(drawn) + 1
      ensures |history0| + i <= |history| <= |history0| + i + 1
      ensures LogSound(flags0, flags, history0, history, m, |history| - |history0|)
      ensures applied.Completed? ==> Through(env, m, i + 1, from, Visible()) && |history| == |history0| + i + 1
      ensures applied.Completed? ==> ReportIs(env, old(Visible()), PlanFor(m[i]), Visible(), applied.value)
      ensures applied.Completed? ==> left + 2 * |PlanFor(m[i])| >= budget
      ensures applied.Completed? && applied.value == [] ==> Visible() == old(Visible())
      ensures applied.Error? ==> ApplyAll(env, from, Plan(m)) == None
      ensures applied.Stopped? ==> budget < 2 * |PlanFor(m[i])|
      ensures !applied.Completed? ==> exists ran :: Reached(env, m, from, ran, Visible())
      ensures Settled(env, from, Plan(m)) && old(Visible()) == from ==>
                Contents() == old(Contents()) && (applied.Completed? ==> applied.value == []) &&
                (old(AllNoOp(history0, history)) ==> AllNoOp(history0, history))
    {
      hide Apply, Settled, ViewOf, Satisfied, Plan, PlanFor, ApplyAll, Progress, FlagOf, AllNoOp, Reached, LogSound,
        OneLogged, Valid, Through, ReportIs;
      ghost var logged, switches := history, flags;
      if Settled(env, from, Plan(m)) && Visible() == from { SettledFlag(env, m, Contents(), start, i); }
      ServiceBegins(env, m, i, from, Visible());
      applied, left := ReconcileService(env, m[i], budget, m, i, from);
      LogNext(flags0, switches, flags, history0, logged, history, m, i);
      if applied.Completed? { ServiceEnds(env, m, i, from, Visible()); }
    }

    method Reconcile(env: Environment, m: Manifest, budget: nat) returns (r: Run<map<string, seq<Change>>>, left: nat)
      requires Valid() && drawn + |m| <= |supply|
      modifies this
      ensures Valid() && left <= budget && drawn <= old(drawn) + |m|
      ensures r.Completed? ==> ApplyAll(env, old(Visible()), Plan(m)) == Some(Visible())
      ensures r.Error? ==> ApplyAll(env, old(Visible()), Plan(m)) == None
      ensures r.Stopped? ==> budget < 2 * |Plan(m)|
      ensures !r.Completed? ==> exists ran :: Reached(env, m, old(Visible()), ran, Visible())
      ensures Settled(env, old(Visible()), Plan(m)) ==>
                Contents() == old(Contents()) && (r.Completed? ==> AllEmpty(r.value))
      ensures r.Completed? && DistinctNames(m) && AllEmpty(r.value) ==> Visible() == old(Visible())
      ensures r.Completed? ==> r.value.Keys == set i | 0 <= i < |m| :: m[i].displayName
      ensures r.Completed? ==> ReportsFirst(env, old(Visible()), m, |m|, r.value)
      ensures |old(history)| <= |history| && (r.Completed? ==> |history| == |old(history)| + |m|)
      ensures LogSound(old(flags), flags, old(history), history, m, |history| - |old(history)|)
      ensures r.Completed? && Settled(env, old(Visible()), Plan(m)) ==> AllNoOp(old(history), history)
      ensures r.Completed? && DistinctServices(m) ==>
                (AllNoOp(old(history), history) <==>
                 forall k | 0 <= k < |m| :: old(FlagOf(flags, m[k].id)) == m[k].communicationEnabled)
    {
      hide Apply, Settled, ViewOf, Satisfied, Plan, PlanFor, ApplyAll, Progress, AllEmpty, FlagOf, AllNoOp, Reached,
        LogSound, OneLogged, Valid, ReportSound, Through, DistinctNames, Contents, ReportIs, ServiceReport;
      ghost var from := Visible();
      var changes: map<string, seq<Change>> := map[];
      left := budget;
      PassBegins(env, m, from);
      LogStarts(flags, history, m);
      for i := 0 to |m|
        invariant Valid() && left <= budget && left + 2 * |Plan(m[..i])| >= budget && drawn <= old(drawn) + i
        invariant Through(env, m, i, from, Visible())
        invariant ReportSound(m, i, changes, Visible() == from) && ReportsFirst(env, from, m, i, changes)
        invariant Settled(env, from, Plan(m)) ==>
                    Contents() == old(Contents()) && AllEmpty(changes) && AllNoOp(old(history), history)
        invariant |history| == |old(history)| + i
        invariant LogSound(old(flags), flags, old(history), history, m, i)
      {
        PlanGrows(m, i);
        ghost var same, begun := Visible() == from, Visible();
        var applied;
        applied, left := ReconcileNext(env, m, i, left, from, old(flags), old(history));
        if !applied.Completed? { return if applied.Error? then Error else Stopped, left; }
        ReportGrows(m, i, changes, same, applied.value, Visible() == from);
        ReportsNext(env, from, m, i, changes, begun, Visible(), applied.value);
        changes := changes[m[i].displayName := applied.value];
      }
      ReconcileEnds(env, m, from, Visible(), changes);
      if DistinctServices(m) { LogAllNoOpExactly(old(flags), flags, old(history), history, m); }
      r := Completed(changes);
    }

    method DisableBindings(m: Manifest) returns (disabled: set<Uuid>)
      requires Valid()
      modifies this`bindings, this`now
      ensures Valid() && bindings == Kept(old(bindings), m)
      ensures disabled == set id | id in old(bindings) && old(bindings)[id] != bindings[id]
    {
      Tick();
      disabled := set id | id in bindings && bindings[id].enabled && !Mentioned(m, id);
      bindings := map id | id in bindings :: if id in disabled then bindings[id].(enabled := false) else bindings[id];
    }

    method RevokeOmitted(env: Environment, m: Manifest, budget: nat) returns (r: Run<seq<Grant>>)
      requires Valid()
      modifies this`grants, this`now
      ensures Valid() && Withdrawing(m, old(grants), grants)
      ensures r.Error? ==> !AdministratorValid(env)
      ensures Unrevoked(old(grants)) <= Triples(m) ==> !r.Error? && grants == old(grants)
      ensures r.Stopped? ==> budget < 1 + |old(grants)|
      ensures r.Completed? ==> Unrevoked(grants) <= Triples(m) && (r.value == [] <==> grants == old(grants))
      ensures r.Completed? ==> r.value == Differing(old(grants), grants)
    {
      hide Triples, Withdrawing, RevokedSoFar, Differing, Unrevoked;
      RevokeBegins(m, grants);
      if budget == 0 { return Stopped; }
      var left := budget - 1;
      Tick();
      var wanted := Triples(m);
      var snapshot := grants;
      var revoked := [];
      for j := 0 to |snapshot|
        invariant Valid() && left + 1 + j >= budget
        invariant RevokedSoFar(m, snapshot, grants, j, revoked)
      {
        if snapshot[j].revokedAt.Some? || snapshot[j].triple in wanted {
          RevokeSkips(m, snapshot, grants, j, revoked);
          continue;
        }
        RevokeNext(m, snapshot, grants, j, revoked, now);
        if left == 0 { return Stopped; }
        left := left - 1;
        Tick();
        RevokeNext(m, snapshot, grants, j, revoked, now);
        if !AdministratorValid(env) { return Error; }
        grants := grants[j := grants[j].(revokedAt := Some(now))];
        revoked := revoked + [snapshot[j]];
      }
      RevokeEnds(m, snapshot, grants, revoked);
      r := Completed(revoked);
    }

    method Prune(env: Environment, m: Manifest, budget: nat) returns (r: Run<Withdrawn>)
      requires Valid()
      modifies this`bindings, this`grants, this`now
      ensures Valid() && Withdrawing(m, old(grants), grants)
      ensures bindings == old(bindings) || bindings == Kept(old(bindings), m)
      ensures r.Error? ==> !AdministratorValid(env)
      ensures old(bindings) == Kept(old(bindings), m) && Unrevoked(old(grants)) <= Triples(m) ==>
                !r.Error? && Contents() == old(Contents())
      ensures r.Stopped? ==> budget < 2 + |old(grants)|
      ensures r.Completed? ==> bindings == Kept(old(bindings), m) && Unrevoked(grants) <= Triples(m)
      ensures r.Completed? ==> (r.value == Withdrawn({}, []) <==> Contents() == old(Contents()))
      ensures r.Completed? ==> r.value.grants == Differing(old(grants), grants)
      ensures r.Completed? ==> r.value.bindings == set id | id in old(bindings) && old(bindings)[id] != bindings[id]
    {
      if budget == 0 { WithdrawnNone(m, grants); return Stopped; }
      var disabled := DisableBindings(m);
      assert disabled == {} <==> bindings == old(bindings) by { NoneDisabled(old(bindings), bindings, m, disabled); }
      var revoked := RevokeOmitted(env, m, budget - 1);
      match revoked
      case Error => return Error;
      case Stopped => return Stopped;
      case Completed(list) => r := Completed(Withdrawn(disabled, list));
    }

    /** Nothing is left for a run to do. */
    ghost predicate AtRest(env: Environment, m: Manifest, prune: bool)
      reads this
    {
      Settled(env, Visible(), Plan(m)) &&
      (prune ==> bindings == Kept(bindings, m) && Unrevoked(grants) <= Triples(m))
    }

    /**
     * One run of the program. Wherever it stops, a complete run from there ends where this one was heading; a complete
     * run leaves nothing to do, and a run with nothing to do changes nothing and reports nothing.
     */
    method RunOnce(env: Environment, m: Manifest, prune: bool, budget: nat)
      returns (r: Run<(map<string, seq<Change>>, Option<Withdrawn>)>)
      requires Valid() && drawn + |m| <= |supply|
      modifies this
      ensures Valid() && drawn <= old(drawn) + |m|
      ensures r.Completed? ==> Destination(env, m, prune, old(Visible())) == Some(Visible())
      ensures r.Completed? ==> ReportsFirst(env, old(Visible()), m, |m|, r.value.0)
      ensures r.Error? ==> Destination(env, m, prune, old(Visible())) == None || (prune && !AdministratorValid(env))
      ensures Agreeing(Plan(m)) ==> Destination(env, m, prune, Visible()) == Destination(env, m, prune, old(Visible()))
      ensures Agreeing(Plan(m)) && r.Completed? && prune ==> Unrevoked(grants) == Triples(m)
      ensures Agreeing(Plan(m)) && r.Completed? ==> AtRest(env, m, prune)
      ensures old(AtRest(env, m, prune)) ==> !r.Error? && Contents() == old(Contents())
      ensures old(AtRest(env, m, prune)) && r.Completed? ==> Silent(prune, r.value) && AllNoOp(old(history), history)
      ensures |old(history)| <= |history| && (r.Completed? ==> |history| == |old(history)| + |m|)
      ensures LogSound(old(flags), flags, old(history), history, m, |history| - |old(history)|)
    {
      hide Apply, ApplyAll, Plan, Flags, LiveTriples, Unrevoked, Triples, Kept, Withdrawing, Settled, AllEmpty,
        LogSound, AllNoOp, Agreeing, ReportsFirst;
      ghost var v := Visible();
      ghost var resting := AtRest(env, m, prune);
      if resting { SettledIsFixed(env, v, Plan(m)); }
      var changes, left := Reconcile(env, m, budget);
      if changes.Error? || changes.Stopped? {
        if Agreeing(Plan(m)) {
          ghost var ran :| Reached(env, m, v, ran, Visible());
          StoppedPassKeepsDestination(env, m, prune, v, ran, Visible());
        }
        return if changes.Error? then Error else Stopped;
      }
      ghost var w := Visible();
      if Agreeing(Plan(m)) { ApplyAllSettles(env, v, Plan(m)); }
      if !prune {
        if Agreeing(Plan(m)) { StoppedPassKeepsDestination(env, m, prune, v, Plan(m), w); }
        return Completed((changes.value, None));
      }
      ghost var held, kept := grants, bindings;
      var withdrawn := Prune(env, m, left);
      WithdrawingKeepsWanted(m, held, grants, start);
      KeptStays(kept, m);
      if Agreeing(Plan(m)) { StoppedPruneKeepsDestination(env, m, v, w, Visible()); }
      if withdrawn.Completed? {
        PruneIsExact(m, held, grants, start);
        if Agreeing(Plan(m)) { PruneArrives(env, m, v, w, held, grants, start); }
      }
      match withdrawn
      case Error => return Error;
      case Stopped => return Stopped;
      case Completed(list) => r := Completed((changes.value, Some(list)));
    }

    /** After a complete run of an agreeing manifest, an immediate further run changes no row and reports nothing. */
    method RunTwice(env: Environment, m: Manifest, prune: bool, budget: nat, again: nat)
      returns (first: Run<(map<string, seq<Change>>, Option<Withdrawn>)>,
               second: Run<(map<string, seq<Change>>, Option<Withdrawn>)>, ghost between: Rows)
      requires Valid() && drawn + 2 * |m| <= |supply|
      modifies this
      ensures Valid()
      ensures first.Completed? ==> Destination(env, m, prune, old(Visible())) == Some(ViewOf(between, start))
      ensures first.Completed? && Agreeing(Plan(m)) ==> !second.Error? && Contents() == between
      ensures first.Completed? && Agreeing(Plan(m)) && second.Completed? ==> Silent(prune, second.value)
    {
      hide Apply, ApplyAll, Plan, Unrevoked, Triples, Kept, Settled, Agreeing, Destination;
      first := RunOnce(env, m, prune, budget);
      between := Contents();
      second := RunOnce(env, m, prune, again);
    }
  }
}
