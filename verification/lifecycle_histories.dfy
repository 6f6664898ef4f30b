/** Whole runs of requests that return, are refused or fail: exactly when they keep what holds between requests. */
module LifecycleHistories {
  import opened Text
  import opened Versions
  import opened Lifecycle
  import opened LifecycleSafety
  import opened LifecycleRuns
  import opened ControllerKinds
  import Mods
  import ModsSafety

  /* ---- rows, containers, controllers and tasks ---- */

  /** New ids are new, and versions are compared as the version service does. */
  ghost predicate FreshRequest(w: World, r: Request, env: Env) {
    FreshEnv(w, env) && ComparesVersions(env) && (r.CreateOne? ==> r.id !in w.table)
  }

  ghost predicate FreshAlong(states: seq<World>, requests: seq<Request>, envs: seq<Env>)
    requires |states| == |requests| + 1 && |envs| == |requests|
  {
    forall i | 0 <= i < |requests| :: FreshRequest(states[i], requests[i], envs[i])
  }

  /** The request creates no miniverse with a version that cannot be parsed. */
  predicate CreatesParsable(r: Request) {
    r.CreateOne? ==> ParseVersion(r.version).Some?
  }

  lemma StepKeepsAgreementExactlyWhen(w: World, r: Request, w': World, domain: string, env: Env)
    requires Agrees(w) && LeadsTo(w, r, w', domain, env) && FreshRequest(w, r, env)
    ensures Agrees(w') <==> CreatesParsable(r)
  {
    match r
    case CreateOne(id, attrs, kind, version) =>
      CreateKeepsAgreementExactlyWhenParsable(w, id, attrs, kind, version, domain, env);
    case StartOne(id) =>
      if id in w.table { StartKeepsAgreement(w, id, env); }
    case StopOne(id) =>
      if id in w.table { StopKeepsAgreement(w, id); }
    case RestartOne(id) =>
      if id in w.table { RestartKeepsAgreement(w, id, env); }
    case UpdateOne(id, patch, version) =>
      if id in w.table { UpdateKeepsAgreement(w, id, patch, version, domain, env); }
    case DeleteOne(id) =>
      if id in w.table { DeleteKeepsAgreement(w, id, domain, env); }
  }

  /** In every run of requests, however they end: a miniverse is marked started exactly when its container runs under
      the stored id with its one task, and controllers are exactly the miniverses, in every state of the run, exactly
      when no miniverse is created with a version that cannot be parsed. */
  lemma RunAgreesExactlyWhen(states: seq<World>, requests: seq<Request>, envs: seq<Env>, domain: string)
    requires IsHistory(states, requests, envs, domain) && FreshAlong(states, requests, envs) && Agrees(states[0])
    ensures (forall i | 0 <= i < |states| :: Agrees(states[i])) <==> (forall i | 0 <= i < |requests| :: CreatesParsable(requests[i]))
  {
    var holds := seq(|states|, i requires 0 <= i < |states| => Agrees(states[i]));
    var keeps := seq(|requests|, i requires 0 <= i < |requests| => CreatesParsable(requests[i]));
    forall i | 0 <= i < |requests| ensures holds[i] ==> (holds[i + 1] <==> keeps[i]) {
      AgreementStepAt(states, requests, envs, domain, i);
    }
    HoldsThroughout(holds, keeps);
    assert forall i | 0 <= i < |states| :: holds[i] == Agrees(states[i]);
    assert forall i | 0 <= i < |requests| :: keeps[i] == CreatesParsable(requests[i]);
  }

  lemma AgreementStepAt(states: seq<World>, requests: seq<Request>, envs: seq<Env>, domain: string, i: nat)
    requires IsHistory(states, requests, envs, domain) && FreshAlong(states, requests, envs) && i < |requests|
    ensures Agrees(states[i]) ==> (Agrees(states[i + 1]) <==> CreatesParsable(requests[i]))
  {
    assert LeadsTo(states[i], requests[i], states[i + 1], domain, envs[i]) && FreshRequest(states[i], requests[i], envs[i]);
    if Agrees(states[i]) {
      StepKeepsAgreementExactlyWhen(states[i], requests[i], states[i + 1], domain, envs[i]);
    }
  }

  /* ---- with routes and mods ---- */

  /** The version part of an update never gets as far as the mods, or loses no mod's file. */
  ghost predicate VersionKeepsMods(w: World, id: MiniId, version: Option<string>, env: Env)
    requires id in w.table && ModsListed(w, env)
  {
    || version.None? || w.table[id].mcVersion == version.value
    || VersionRefused(w, id, version.value, env) || !HasMods(w.table[id].kind)
    || ModsSafety.NothingLost(env.modList, ModUpdates(w, env, version.value), env.details)
  }

  ghost predicate KeepsMods(w: World, id: MiniId, patch: map<Field, string>, version: Option<string>, env: Env)
    requires id in w.table && ModsListed(w, env)
  {
    FieldsRefused(w, id, patch) || VersionKeepsMods(w, id, version, env)
  }

  lemma UpgradeKeepsModsExactlyWhen(owner: ModsSafety.Owner, w: World, id: MiniId, version: string, env: Env)
    requires id in w.table && ModsListed(w, env) && ModsSafety.Sound(owner, w.mods) && GenuineEnv(owner, env)
    ensures ModsSafety.Sound(owner, ApplyVersion(w, id, version, env).world.mods) <==>
            !HasMods(w.table[id].kind) || ModsSafety.NothingLost(env.modList, ModUpdates(w, env, version), env.details)
  {
    ApplyVersionSites(w, id, version, env);
    if HasMods(w.table[id].kind) {
      ModsSafety.ListedAreOwn(owner, w.mods, env.modList, env.list, env.details, version);
      ModsSafety.UpgradeAllKeepsSoundExactlyWhen(owner, w.mods, env.modList, ModUpdates(w, env, version), env.details);
    }
  }

  lemma FinishKeepsModsExactlyWhen(owner: ModsSafety.Owner, w: World, id: MiniId, changed: set<Field>, version: Option<string>, domain: string, env: Env)
    requires id in w.table && ModsListed(w, env) && ModsSafety.Sound(owner, w.mods) && GenuineEnv(owner, env)
    ensures ModsSafety.Sound(owner, FinishUpdate(w, id, changed, version, domain, env).world.mods) <==> VersionKeepsMods(w, id, version, env)
  {
    if version.Some? {
      UpgradeKeepsModsExactlyWhen(owner, w, id, version.value, env);
    }
  }

  lemma FieldsDoNotMatter(w: World, id: MiniId, row: Mini, version: Option<string>, env: Env)
    requires id in w.table && ModsListed(w, env) && row.mcVersion == w.table[id].mcVersion && row.kind == w.table[id].kind
    ensures VersionKeepsMods(w.(table := w.table[id := row]), id, version, env) <==> VersionKeepsMods(w, id, version, env)
  {
    var w1 := w.(table := w.table[id := row]);
    if version.Some? {
      assert ModUpdates(w1, env, version.value) == ModUpdates(w, env, version.value);
    }
  }

  lemma UpdateKeepsModsExactlyWhen(owner: ModsSafety.Owner, w: World, id: MiniId, patch: map<Field, string>, version: Option<string>, domain: string, env: Env)
    requires id in w.table && ModsListed(w, env) && ModsSafety.Sound(owner, w.mods) && GenuineEnv(owner, env)
    ensures ModsSafety.Sound(owner, Update(w, id, patch, version, domain, env).world.mods) <==> KeepsMods(w, id, patch, version, env)
  {
    PatchSubdomainExactlyWhen(w, id, patch);
    if PatchFields(w.table, w.table[id], FIELDS, patch).Some? {
      PatchKeepsRest(w.table, w.table[id], FIELDS, patch);
      var w1, changed := UpdateIsPatchThenFinish(w, id, patch, version, domain, env);
      FinishKeepsModsExactlyWhen(owner, w1, id, changed, version, domain, env);
      FieldsDoNotMatter(w, id, w1.table[id], version, env);
    }
  }

  /** What a request needs, in the state it meets, to keep everything: a version that can be parsed for a new
      miniverse; for an update, no new subdomain committed before a version that does not go through, and no mod's
      file lost on the way. */
  ghost predicate KeepsHealth(w: World, r: Request, env: Env)
    requires ModsListed(w, env)
  {
    match r
    case CreateOne(_, _, _, version) => ParseVersion(version).Some?
    case UpdateOne(id, patch, version) =>
      id in w.table ==>
        && (!NewSubdomain(w, id, patch) || FieldsRefused(w, id, patch) || VersionWorks(w, id, version, env))
        && KeepsMods(w, id, patch, version, env)
    case _ => true
  }

  /** Queries list what is there, a new miniverse has a subdomain, and the platform's answers are genuine. */
  ghost predicate GenuineRequest(r: Request, w': World, env: Env, owner: ModsSafety.Owner) {
    Enumerates(env.order, w'.table.Keys) && (r.CreateOne? ==> Subdomain in r.attrs) && GenuineEnv(owner, env)
  }

  lemma UpdateIsHealthyExactlyWhen(w: World, id: MiniId, patch: map<Field, string>, version: Option<string>, domain: string, env: Env, owner: ModsSafety.Owner)
    requires Healthy(w, domain, owner) && id in w.table && ModsListed(w, env) && FreshEnv(w, env) && GenuineEnv(owner, env)
    requires Enumerates(env.order, w.table.Keys)
    ensures Healthy(Update(w, id, patch, version, domain, env).world, domain, owner) <==>
            && (!NewSubdomain(w, id, patch) || FieldsRefused(w, id, patch) || VersionWorks(w, id, version, env))
            && KeepsMods(w, id, patch, version, env)
  {
    UpdateKeepsAgreement(w, id, patch, version, domain, env);
    UpdateKeepsSubs(w, id, patch, version, domain, env);
    UpdateKeepsRoutesExactlyWhen(w, id, patch, version, domain, env);
    UpdateKeepsModsExactlyWhen(owner, w, id, patch, version, domain, env);
  }

  lemma CreateIsHealthyExactlyWhen(w: World, r: Request, w': World, domain: string, env: Env, owner: ModsSafety.Owner)
    requires Healthy(w, domain, owner) && r.CreateOne? && LeadsTo(w, r, w', domain, env)
    requires FreshRequest(w, r, env) && GenuineRequest(r, w', env, owner)
    ensures Healthy(w', domain, owner) <==> ParseVersion(r.version).Some?
  {
    CreateKeepsAgreementExactlyWhenParsable(w, r.id, r.attrs, r.kind, r.version, domain, env);
    if ParseVersion(r.version).Some? {
      assert HandledTo(w, r, w', domain, env);
      CreateIsHealthy(w, r, w', domain, env, owner);
    }
  }

  lemma PlainStepIsHealthy(w: World, r: Request, w': World, domain: string, env: Env, owner: ModsSafety.Owner)
    requires Healthy(w, domain, owner) && LeadsTo(w, r, w', domain, env) && !r.CreateOne? && !r.UpdateOne?
    requires FreshRequest(w, r, env) && GenuineRequest(r, w', env, owner)
    ensures Healthy(w', domain, owner)
  {
    if r.id in w.table {
      match r
      case StartOne(id) => StartIsHealthy(w, id, domain, env, owner);
      case StopOne(id) => StopIsHealthy(w, id, domain, owner);
      case RestartOne(id) =>
        StopIsHealthy(w, id, domain, owner);
        StopKeepsAgreement(w, id);
        FreshAfterStop(w, id, env);
        StopSites(w, id);
        StartIsHealthy(Stop(w, id).world, id, domain, env, owner);
      case DeleteOne(id) =>
        DeleteKeepsAgreement(w, id, domain, env);
        assert HandledTo(w, r, w', domain, env);
        DeleteIsHealthy(w, r, w', domain, env, owner);
    }
  }

  lemma StepIsHealthyExactlyWhen(w: World, r: Request, w': World, domain: string, env: Env, owner: ModsSafety.Owner)
    requires Healthy(w, domain, owner) && LeadsTo(w, r, w', domain, env)
    requires FreshRequest(w, r, env) && GenuineRequest(r, w', env, owner)
    ensures Healthy(w', domain, owner) <==> KeepsHealth(w, r, env)
  {
    match r
    case CreateOne(_, _, _, _) => CreateIsHealthyExactlyWhen(w, r, w', domain, env, owner);
    case UpdateOne(id, patch, version) =>
      if id in w.table {
        UpdateKeepsSubs(w, id, patch, version, domain, env);
        UpdateIsHealthyExactlyWhen(w, id, patch, version, domain, env, owner);
      }
    case _ => PlainStepIsHealthy(w, r, w', domain, env, owner);
  }

  /** In every run of requests, however they end: agreement, a routes file that is the route map of the table, and a
      file of its own for every mod hold in every state, exactly when each request has what it needs in the state it
      meets. */
  lemma RunIsHealthyExactlyWhen(states: seq<World>, requests: seq<Request>, envs: seq<Env>, domain: string, owner: ModsSafety.Owner)
    requires IsHistory(states, requests, envs, domain) && FreshAlong(states, requests, envs) && Healthy(states[0], domain, owner)
    requires forall i | 0 <= i < |requests| :: GenuineRequest(requests[i], states[i + 1], envs[i], owner)
    ensures (forall i | 0 <= i < |states| :: Healthy(states[i], domain, owner)) <==>
            (forall i | 0 <= i < |requests| :: HealthKeptAt(states, requests, envs, i))
  {
    var holds := seq(|states|, i requires 0 <= i < |states| => Healthy(states[i], domain, owner));
    var keeps := seq(|requests|, i requires 0 <= i < |requests| => HealthKeptAt(states, requests, envs, i));
    forall i | 0 <= i < |requests| ensures holds[i] ==> (holds[i + 1] <==> keeps[i]) {
      HealthStepAt(states, requests, envs, domain, owner, i);
    }
    HoldsThroughout(holds, keeps);
    assert forall i | 0 <= i < |states| :: holds[i] == Healthy(states[i], domain, owner);
    assert forall i | 0 <= i < |requests| :: keeps[i] == HealthKeptAt(states, requests, envs, i);
  }

  /** The i-th request of a run has what it needs. */
  ghost predicate HealthKeptAt(states: seq<World>, requests: seq<Request>, envs: seq<Env>, i: int)
    requires |states| == |requests| + 1 && |envs| == |requests| && 0 <= i < |requests|
  {
    ModsListed(states[i], envs[i]) && KeepsHealth(states[i], requests[i], envs[i])
  }

  lemma HealthStepAt(states: seq<World>, requests: seq<Request>, envs: seq<Env>, domain: string, owner: ModsSafety.Owner, i: nat)
    requires IsHistory(states, requests, envs, domain) && FreshAlong(states, requests, envs) && i < |requests|
    requires GenuineRequest(requests[i], states[i + 1], envs[i], owner)
    ensures Healthy(states[i], domain, owner) ==>
              (Healthy(states[i + 1], domain, owner) <==> HealthKeptAt(states, requests, envs, i))
  {
    assert LeadsTo(states[i], requests[i], states[i + 1], domain, envs[i]) && FreshRequest(states[i], requests[i], envs[i]);
    if Healthy(states[i], domain, owner) {
      StepIsHealthyExactlyWhen(states[i], requests[i], states[i + 1], domain, envs[i], owner);
    }
  }
}
