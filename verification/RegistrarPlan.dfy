/** What one reconciliation pass is meant to do, as a list of idempotent statements over what an operator can see. */
module RegistrarPlan {
  import opened Foundations
  import Admission

  datatype Identity = Identity(kind: string, displayName: string, active: bool)
  datatype Binding = Binding(namespace: string, account: string, uid: string, enabled: bool)
  datatype Triple = Triple(source: Uuid, action: string, scope: string)

  datatype GrantSpec = GrantSpec(action: string, scope: string)
  datatype ServiceSpec = ServiceSpec(
    id: Uuid, kind: string, displayName: string, namespace: Option<string>, account: Option<string>,
    communicationEnabled: bool, grants: seq<GrantSpec>)
  type Manifest = seq<ServiceSpec>

  datatype Statement =
    | PutIdentity(id: Uuid, kind: string, displayName: string)
    | PutBinding(id: Uuid, namespace: string, account: string)
    | SetAdmission(id: Uuid, enabled: bool)
    | EnsureGrant(triple: Triple)

  /** The rows an operator can see: `live` are the unrevoked, unexpired grants to any destination. */
  datatype View = View(
    identities: map<Uuid, Identity>, bindings: map<Uuid, Binding>, enabled: map<Uuid, bool>, live: set<Triple>)

  /** The cluster's answers, the checks the database makes on one statement's own values, and who is asking. */
  datatype Environment = Environment(
    resolve: (string, string) -> Option<string>, legal: Statement -> bool, administrator: string)

  predicate AdministratorValid(env: Environment) { 1 <= |Admission.BTrim(env.administrator)| <= 200 }

  // ---- One statement ----

  predicate Taken(bindings: map<Uuid, Binding>, id: Uuid, b: Binding) {
    exists other | other in bindings :: other != id && bindings[other].(enabled := true) == b
  }

  function Wanted(env: Environment, s: Statement): Option<Binding>
    requires s.PutBinding?
  {
    match env.resolve(s.namespace, s.account)
    case None => None
    case Some(uid) => Some(Binding(s.namespace, s.account, uid, true))
  }

  /** `None` when the statement fails; it then changes nothing. */
  function Apply(env: Environment, v: View, s: Statement): Option<View> {
    if (s.PutIdentity? || s.PutBinding?) && !env.legal(s) then None
    else
      match s
      case PutIdentity(id, kind, displayName) =>
        Some(v.(identities := v.identities[id := Identity(kind, displayName, true)],
                enabled := if id in v.enabled then v.enabled else v.enabled[id := false]))
      case PutBinding(id, _, _) =>
        (match Wanted(env, s)
         case None => None
         case Some(b) =>
           if id in v.bindings && v.bindings[id] == b then Some(v)
           else if id !in v.identities || Taken(v.bindings, id, b) then None
           else Some(v.(bindings := v.bindings[id := b])))
      case SetAdmission(id, enabled) =>
        if !AdministratorValid(env) || id !in v.enabled then None else Some(v.(enabled := v.enabled[id := enabled]))
      case EnsureGrant(triple) =>
        if triple in v.live then Some(v)
        else if !env.legal(s) || triple.source !in v.identities then None
        else Some(v.(live := v.live + {triple}))
  }

  /** Which statements fail, from the rows: a binding is refused while another service has the same account, enabled or not. */
  lemma StatementFailsExactly(env: Environment, v: View, s: Statement)
    ensures Apply(env, v, s) == None <==>
            match s
            case PutIdentity(_, _, _) => !env.legal(s)
            case PutBinding(id, namespace, account) =>
              !env.legal(s) || env.resolve(namespace, account) == None ||
              (var uid := env.resolve(namespace, account).value;
               !(id in v.bindings && v.bindings[id] == Binding(namespace, account, uid, true)) &&
               (id !in v.identities ||
                exists other | other in v.bindings ::
                  other != id && v.bindings[other].namespace == namespace &&
                  v.bindings[other].account == account && v.bindings[other].uid == uid))
            case SetAdmission(id, _) => !(1 <= |Admission.BTrim(env.administrator)| <= 200) || id !in v.enabled
            case EnsureGrant(triple) => triple !in v.live && (!env.legal(s) || triple.source !in v.identities)
  {
    hide Admission.BTrim;
    if s.PutBinding? && Wanted(env, s).Some? {
      var b := Wanted(env, s).value;
      forall other | other in v.bindings
        ensures v.bindings[other].(enabled := true) == b <==>
                v.bindings[other].namespace == s.namespace && v.bindings[other].account == s.account &&
                v.bindings[other].uid == env.resolve(s.namespace, s.account).value
      {}
    }
  }

  predicate Satisfied(env: Environment, v: View, s: Statement) {
    (s.PutIdentity? || s.PutBinding? ==> env.legal(s)) && (s.SetAdmission? ==> AdministratorValid(env)) &&
    match s
    case PutIdentity(id, kind, displayName) =>
      id in v.identities && v.identities[id] == Identity(kind, displayName, true) && id in v.enabled
    case PutBinding(id, _, _) =>
      Wanted(env, s).Some? && id in v.bindings && v.bindings[id] == Wanted(env, s).value
    case SetAdmission(id, enabled) => id in v.enabled && v.enabled[id] == enabled
    case EnsureGrant(triple) => triple in v.live
  }

  /** Two statements that aim at the same row ask the same of it. */
  predicate Compatible(s: Statement, t: Statement) {
    match (s, t)
    case (PutIdentity(i, _, _), PutIdentity(j, _, _)) => i == j ==> s == t
    case (PutBinding(i, _, _), PutBinding(j, _, _)) => i == j ==> s == t
    case (SetAdmission(i, _), SetAdmission(j, _)) => i == j ==> s == t
    case _ => true
  }

  lemma SatisfiedIsFixed(env: Environment, v: View, s: Statement)
    requires Satisfied(env, v, s)
    ensures Apply(env, v, s) == Some(v)
  {
    match s
    case PutIdentity(id, kind, displayName) => assert v.identities[id := Identity(kind, displayName, true)] == v.identities;
    case PutBinding(_, _, _) =>
    case SetAdmission(id, enabled) => assert v.enabled[id := enabled] == v.enabled;
    case EnsureGrant(_) =>
  }

  lemma ApplySatisfies(env: Environment, v: View, s: Statement)
    requires Apply(env, v, s).Some?
    ensures Satisfied(env, Apply(env, v, s).value, s)
  {
  }

  lemma ApplyKeeps(env: Environment, v: View, s: Statement, t: Statement)
    requires Satisfied(env, v, s) && Apply(env, v, t).Some? && Compatible(s, t)
    ensures Satisfied(env, Apply(env, v, t).value, s)
  {
  }

  // ---- Lists of statements ----

  function ApplyAll(env: Environment, v: View, ss: seq<Statement>): Option<View> {
    if ss == [] then Some(v)
    else
      match ApplyAll(env, v, ss[..|ss| - 1])
      case None => None
      case Some(before) => Apply(env, before, ss[|ss| - 1])
  }

  ghost predicate Settled(env: Environment, v: View, ss: seq<Statement>) {
    forall s | s in ss :: Satisfied(env, v, s)
  }

  ghost predicate Agreeing(ss: seq<Statement>) {
    forall i, j | 0 <= i < |ss| && 0 <= j < |ss| :: Compatible(ss[i], ss[j])
  }

  lemma {:induction false} ApplyAllSplits(env: Environment, v: View, a: seq<Statement>, b: seq<Statement>)
    ensures ApplyAll(env, v, a + b) ==
            (match ApplyAll(env, v, a) case None => None case Some(mid) => ApplyAll(env, mid, b))
    decreases |b|
  {
    if b == [] {
      assert a + b == a;
    } else {
      var n := |b| - 1;
      assert (a + b)[..|a + b| - 1] == a + b[..n];
      ApplyAllSplits(env, v, a, b[..n]);
    }
  }

  lemma {:induction false} ApplyAllSettles(env: Environment, v: View, ss: seq<Statement>)
    requires ApplyAll(env, v, ss).Some? && Agreeing(ss)
    ensures Settled(env, ApplyAll(env, v, ss).value, ss)
  {
    if ss != [] {
      var n := |ss| - 1;
      var before := ApplyAll(env, v, ss[..n]).value;
      ApplyAllSettles(env, v, ss[..n]);
      ApplySatisfies(env, before, ss[n]);
      forall i | 0 <= i < n ensures Satisfied(env, ApplyAll(env, v, ss).value, ss[i]) {
        assert ss[..n][i] == ss[i] && ss[i] in ss[..n];
        ApplyKeeps(env, before, ss[i], ss[n]);
      }
    }
  }

  lemma SatisfiedTogether(env: Environment, v: View, s: Statement, t: Statement)
    requires Satisfied(env, v, s) && Satisfied(env, v, t)
    ensures Compatible(s, t)
  {
  }

  /** A completed pass leaves nothing to do exactly when no two statements fight over a row. */
  lemma SettlesExactlyWhenAgreeing(env: Environment, v: View, ss: seq<Statement>)
    requires ApplyAll(env, v, ss).Some?
    ensures Settled(env, ApplyAll(env, v, ss).value, ss) <==> Agreeing(ss)
  {
    var after := ApplyAll(env, v, ss).value;
    if Agreeing(ss) {
      ApplyAllSettles(env, v, ss);
    } else if Settled(env, after, ss) {
      forall i, j | 0 <= i < |ss| && 0 <= j < |ss| ensures Compatible(ss[i], ss[j]) {
        SatisfiedTogether(env, after, ss[i], ss[j]);
      }
    }
  }

  lemma {:induction false} SettledIsFixed(env: Environment, v: View, ss: seq<Statement>)
    requires Settled(env, v, ss)
    ensures ApplyAll(env, v, ss) == Some(v)
  {
    if ss != [] {
      var n := |ss| - 1;
      assert ss == ss[..n] + [ss[n]];
      assert ss[n] in ss;
      SettledIsFixed(env, v, ss[..n]);
      SatisfiedIsFixed(env, v, ss[n]);
    }
  }

  /** Stopping after any number of statements and starting again ends as if nothing had happened. */
  lemma RestartMakesNoDifference(env: Environment, v: View, ss: seq<Statement>, k: nat)
    requires Agreeing(ss) && k <= |ss| && ApplyAll(env, v, ss[..k]).Some?
    ensures ApplyAll(env, ApplyAll(env, v, ss[..k]).value, ss) == ApplyAll(env, v, ss)
  {
    var stopped := ApplyAll(env, v, ss[..k]).value;
    assert Agreeing(ss[..k]);
    ApplyAllSettles(env, v, ss[..k]);
    SettledIsFixed(env, stopped, ss[..k]);
    assert ss == ss[..k] + ss[k..];
    ApplyAllSplits(env, v, ss[..k], ss[k..]);
    ApplyAllSplits(env, stopped, ss[..k], ss[k..]);
  }

  // ---- The statements of a manifest ----

  function TripleOf(s: ServiceSpec, g: GrantSpec): Triple { Triple(s.id, g.action, g.scope) }

  function Prelude(s: ServiceSpec): seq<Statement> {
    [PutIdentity(s.id, s.kind, s.displayName)]
    + (if s.namespace.Some? && s.account.Some? then [PutBinding(s.id, s.namespace.value, s.account.value)] else [])
    + [SetAdmission(s.id, s.communicationEnabled)]
  }

  function GrantsOf(s: ServiceSpec): seq<Statement> {
    seq(|s.grants|, i requires 0 <= i < |s.grants| => EnsureGrant(TripleOf(s, s.grants[i])))
  }

  function PlanFor(s: ServiceSpec): seq<Statement> { Prelude(s) + GrantsOf(s) }

  function Plan(m: Manifest): seq<Statement> {
    if m == [] then [] else Plan(m[..|m| - 1]) + PlanFor(m[|m| - 1])
  }

  ghost predicate DistinctServices(m: Manifest) {
    forall i, j | 0 <= i < j < |m| :: m[i].id != m[j].id
  }

  function Triples(m: Manifest): set<Triple> {
    set i, j | 0 <= i < |m| && 0 <= j < |m[i].grants| :: TripleOf(m[i], m[i].grants[j])
  }

  lemma {:induction false} PlanIsFromServices(m: Manifest, s: Statement)
    ensures s in Plan(m) <==> exists i | 0 <= i < |m| :: s in PlanFor(m[i])
  {
    if m != [] {
      var n := |m| - 1;
      PlanIsFromServices(m[..n], s);
      assert forall i | 0 <= i < n :: m[..n][i] == m[i];
    }
  }

  lemma OneServiceAgrees(a: ServiceSpec, b: ServiceSpec, s: Statement, t: Statement)
    requires s in PlanFor(a) && t in PlanFor(b) && (a == b || a.id != b.id)
    ensures Compatible(s, t)
  {
  }

  lemma PlanAgrees(m: Manifest)
    requires DistinctServices(m)
    ensures Agreeing(Plan(m))
  {
    var ss := Plan(m);
    forall i, j | 0 <= i < |ss| && 0 <= j < |ss| ensures Compatible(ss[i], ss[j]) {
      PlanIsFromServices(m, ss[i]);
      PlanIsFromServices(m, ss[j]);
      var a :| 0 <= a < |m| && ss[i] in PlanFor(m[a]);
      var b :| 0 <= b < |m| && ss[j] in PlanFor(m[b]);
      assert a == b || m[a].id != m[b].id;
      OneServiceAgrees(m[a], m[b], ss[i], ss[j]);
    }
  }

  lemma {:induction false} PlanPrefix(m: Manifest, i: nat, front: seq<Statement>, back: seq<Statement>)
    requires i < |m| && PlanFor(m[i]) == front + back
    ensures Plan(m[..i]) + front <= Plan(m)
    decreases |m|
  {
    var n := |m| - 1;
    assert m[..n] + [m[n]] == m;
    if i < n {
      assert m[..n][..i] == m[..i];
      PlanPrefix(m[..n], i, front, back);
    }
  }

  // ---- What a complete pass achieves, without the statements ----

  ghost predicate Achieved(env: Environment, v: View, s: ServiceSpec) {
    && s.id in v.identities && v.identities[s.id] == Identity(s.kind, s.displayName, true)
    && s.id in v.enabled && v.enabled[s.id] == s.communicationEnabled
    && (s.namespace.Some? && s.account.Some? ==>
          env.resolve(s.namespace.value, s.account.value).Some? && s.id in v.bindings &&
          v.bindings[s.id] == Binding(s.namespace.value, s.account.value,
                                      env.resolve(s.namespace.value, s.account.value).value, true))
  }

  predicate Mentioned(m: Manifest, id: Uuid) { exists i | 0 <= i < |m| :: m[i].id == id }

  predicate Enrols(m: Manifest, id: Uuid) {
    exists i | 0 <= i < |m| :: m[i].id == id && m[i].namespace.Some? && m[i].account.Some?
  }

  /** Every row the manifest does not speak of is as it was. */
  ghost predicate OthersKept(m: Manifest, before: View, after: View) {
    && (forall id | !Mentioned(m, id) :: id in before.identities <==> id in after.identities)
    && (forall id | !Mentioned(m, id) && id in before.identities :: after.identities[id] == before.identities[id])
    && (forall id | !Mentioned(m, id) :: id in before.enabled <==> id in after.enabled)
    && (forall id | !Mentioned(m, id) && id in before.enabled :: after.enabled[id] == before.enabled[id])
    && (forall id | !Enrols(m, id) :: id in before.bindings <==> id in after.bindings)
    && (forall id | !Enrols(m, id) && id in before.bindings :: after.bindings[id] == before.bindings[id])
  }

  /** The triples a manifest grants: each of its services may do each of its own grants. */
  lemma TriplesExactly(m: Manifest, t: Triple)
    ensures t in Triples(m) <==>
            exists i, j | 0 <= i < |m| && 0 <= j < |m[i].grants| ::
              t.source == m[i].id && t.action == m[i].grants[j].action && t.scope == m[i].grants[j].scope
  {
    if i, j :| 0 <= i < |m| && 0 <= j < |m[i].grants| &&
               t.source == m[i].id && t.action == m[i].grants[j].action && t.scope == m[i].grants[j].scope {
      assert TripleOf(m[i], m[i].grants[j]) == t;
    }
  }

  ghost predicate Reconciled(env: Environment, m: Manifest, before: View, after: View) {
    (forall i | 0 <= i < |m| :: Achieved(env, after, m[i])) &&
    OthersKept(m, before, after) && after.live == before.live + Triples(m)
  }

  ghost predicate OneKept(s: Statement, before: View, after: View) {
    (forall id | !(s.PutIdentity? && s.id == id) ::
       (id in before.identities <==> id in after.identities) &&
       (id in before.identities ==> after.identities[id] == before.identities[id])) &&
    (forall id | !((s.PutIdentity? || s.SetAdmission?) && s.id == id) ::
       (id in before.enabled <==> id in after.enabled) &&
       (id in before.enabled ==> after.enabled[id] == before.enabled[id])) &&
    (forall id | !(s.PutBinding? && s.id == id) ::
       (id in before.bindings <==> id in after.bindings) &&
       (id in before.bindings ==> after.bindings[id] == before.bindings[id]))
  }

  lemma ApplyKeepsOthers(env: Environment, v: View, s: Statement)
    requires Apply(env, v, s).Some?
    ensures OneKept(s, v, Apply(env, v, s).value)
    ensures Apply(env, v, s).value.live == v.live + (if s.EnsureGrant? then {s.triple} else {})
  {
  }

  ghost predicate InPlan(m: Manifest, s: Statement) { exists i | 0 <= i < |m| :: s in PlanFor(m[i]) }

  lemma NothingKept(m: Manifest, v: View)
    ensures OthersKept(m, v, v)
  {
  }

  lemma {:induction false} ApplyAllKeepsOthers(env: Environment, m: Manifest, v: View, ss: seq<Statement>)
    requires ApplyAll(env, v, ss).Some? && forall s | s in ss :: InPlan(m, s)
    ensures OthersKept(m, v, ApplyAll(env, v, ss).value)
    ensures ApplyAll(env, v, ss).value.live == v.live + set s | s in ss && s.EnsureGrant? :: s.triple
  {
    hide Apply, OthersKept, OneKept, InPlan, Mentioned, Enrols, Triples;
    if ss == [] {
      NothingKept(m, v);
    } else {
      var n := |ss| - 1;
      var mid, after := ApplyAll(env, v, ss[..n]).value, ApplyAll(env, v, ss).value;
      ApplyAllKeepsOthers(env, m, v, ss[..n]);
      ApplyKeepsOthers(env, mid, ss[n]);
      assert ss == ss[..n] + [ss[n]];
      StatementTouchesMentioned(m, ss[n]);
      OthersKeptChains(m, ss[n], v, mid, after);
    }
  }

  lemma StatementTouchesMentioned(m: Manifest, s: Statement)
    requires InPlan(m, s)
    ensures s.PutIdentity? || s.SetAdmission? ==> Mentioned(m, s.id)
    ensures s.PutBinding? ==> Enrols(m, s.id)
    ensures s.EnsureGrant? ==> s.triple in Triples(m)
  {
    var i :| 0 <= i < |m| && s in PlanFor(m[i]);
    if s.EnsureGrant? {
      var j :| 0 <= j < |m[i].grants| && s == EnsureGrant(TripleOf(m[i], m[i].grants[j]));
    }
  }

  lemma OthersKeptChains(m: Manifest, s: Statement, before: View, mid: View, after: View)
    requires OthersKept(m, before, mid) && OneKept(s, mid, after)
    requires s.PutIdentity? || s.SetAdmission? ==> Mentioned(m, s.id)
    requires s.PutBinding? ==> Enrols(m, s.id)
    ensures OthersKept(m, before, after)
  {
    hide Mentioned, Enrols;
  }

  lemma PlanTriples(m: Manifest)
    ensures (set s | s in Plan(m) && s.EnsureGrant? :: s.triple) == Triples(m)
  {
    forall s | s in Plan(m) ensures InPlan(m, s) { PlanIsFromServices(m, s); }
    forall s | s in Plan(m) && s.EnsureGrant? ensures s.triple in Triples(m) { StatementTouchesMentioned(m, s); }
    forall t | t in Triples(m) ensures EnsureGrant(t) in Plan(m) {
      var i, j :| 0 <= i < |m| && 0 <= j < |m[i].grants| && t == TripleOf(m[i], m[i].grants[j]);
      assert GrantsOf(m[i])[j] in PlanFor(m[i]);
      PlanIsFromServices(m, EnsureGrant(t));
    }
    assert forall t | t in Triples(m) :: EnsureGrant(t).triple == t;
  }

  lemma ServiceStatements(m: Manifest, i: nat, s: Statement)
    requires i < |m| && s in PlanFor(m[i])
    ensures s in Plan(m)
  {
    PlanIsFromServices(m, s);
  }

  lemma SettledAchieves(env: Environment, m: Manifest, v: View, i: nat)
    requires i < |m| && Settled(env, v, Plan(m))
    ensures Achieved(env, v, m[i])
  {
    hide Plan, GrantsOf;
    ServiceStatements(m, i, PutIdentity(m[i].id, m[i].kind, m[i].displayName));
    ServiceStatements(m, i, SetAdmission(m[i].id, m[i].communicationEnabled));
    if m[i].namespace.Some? && m[i].account.Some? {
      ServiceStatements(m, i, PutBinding(m[i].id, m[i].namespace.value, m[i].account.value));
    }
    hide Prelude, PlanFor;
  }

  /** The statements together do exactly what the manifest says, and nothing else. */
  lemma PlanReconciles(env: Environment, m: Manifest, v: View)
    requires Agreeing(Plan(m)) && ApplyAll(env, v, Plan(m)).Some?
    ensures Reconciled(env, m, v, ApplyAll(env, v, Plan(m)).value)
  {
    var after := ApplyAll(env, v, Plan(m)).value;
    ApplyAllSettles(env, v, Plan(m));
    forall s | s in Plan(m) ensures InPlan(m, s) { PlanIsFromServices(m, s); }
    ApplyAllKeepsOthers(env, m, v, Plan(m));
    PlanTriples(m);
    forall i | 0 <= i < |m| ensures Achieved(env, after, m[i]) { SettledAchieves(env, m, after, i); }
    hide Achieved, OthersKept, ApplyAll, Agreeing, Settled, Plan, Triples;
  }

  /** What a pass achieves leaves no choice: two complete passes from one state agree on everything visible. */
  lemma ReconciledIsUnique(env: Environment, m: Manifest, before: View, a: View, b: View)
    requires Reconciled(env, m, before, a) && Reconciled(env, m, before, b)
    ensures a.identities == b.identities && a.enabled == b.enabled && a.bindings == b.bindings && a.live == b.live
  {
    forall id ensures id in a.identities <==> id in b.identities { if Mentioned(m, id) {} }
    forall id ensures id in a.enabled <==> id in b.enabled { if Mentioned(m, id) {} }
    forall id ensures id in a.bindings <==> id in b.bindings { if Enrols(m, id) {} }
    forall id | id in a.identities ensures a.identities[id] == b.identities[id] { if Mentioned(m, id) {} }
    forall id | id in a.enabled ensures a.enabled[id] == b.enabled[id] { if Mentioned(m, id) {} }
    forall id | id in a.bindings ensures a.bindings[id] == b.bindings[id] { if Enrols(m, id) {} }
  }

  /** A switch is found on only if it was on before or a statement turned it on: an identity is entered with it off. */
  lemma {:induction false} SwitchedOnByStatement(env: Environment, v: View, ss: seq<Statement>, id: Uuid)
    requires ApplyAll(env, v, ss).Some?
    ensures var w := ApplyAll(env, v, ss).value;
            id in w.enabled && w.enabled[id] ==> (id in v.enabled && v.enabled[id]) || SetAdmission(id, true) in ss
  {
    if ss != [] {
      SwitchedOnByStatement(env, v, ss[..|ss| - 1], id);
      var u := ApplyAll(env, v, ss[..|ss| - 1]).value;
      assert Apply(env, u, ss[|ss| - 1]).Some?;
      hide Wanted, Taken, AdministratorValid, ApplyAll;
    }
  }
}
