/** Which miniverses run: what each request decides, and what the last deciding request of a run leaves. */
module LifecycleRequests {
  import opened Text
  import opened Lifecycle
  import opened LifecycleSafety
  import opened LifecycleRuns
  import opened LifecycleEffects
  import Mods
  import ModsSafety

  predicate Running(w: World, id: MiniId) {
    id in w.table && w.table[id].started
  }

  datatype Effect = Starts | Stops | Keeps

  /** Creating, starting and restarting make a miniverse run, and so does an update to another version; stopping and
      deleting end that. Requests for others, and updates without a new version, leave it as it is. */
  function EffectOn(w: World, r: Request, id: MiniId): Effect {
    if r.id != id then Keeps
    else
      match r
      case StopOne(_) => Stops
      case DeleteOne(_) => Stops
      case UpdateOne(_, _, version) =>
        if version.Some? && id in w.table && w.table[id].mcVersion != version.value then Starts else Keeps
      case _ => Starts
  }

  predicate RunningAfter(before: bool, effect: Effect) {
    effect == Starts || (effect == Keeps && before)
  }

  /** Requests for other miniverses leave a miniverse as it is, and make none of this id. */
  lemma OthersDoNotDecide(w: World, r: Request, domain: string, env: Env, id: MiniId)
    requires ModsListed(w, env) && r.id != id && Handle(w, r, domain, env).outcome == Returned
    ensures Running(Handle(w, r, domain, env).world, id) <==> Running(w, id)
  {
    if id in w.table {
      OtherRowStays(w, r, domain, env, id);
    } else {
      match r
      case CreateOne(k, attrs, kind, version) => CreateTable(w, k, attrs, kind, version, domain, env);
      case StartOne(k) => StartOwnRow(w, k, env);
      case StopOne(k) => StopOwnRow(w, k);
      case RestartOne(k) =>
        StopOwnRow(w, k);
        StartOwnRow(Stop(w, k).world, k, env);
      case UpdateOne(k, patch, version) => UpdateMakesNoRow(w, k, patch, version, domain, env);
      case DeleteOne(k) => DeleteMakesNoRow(w, k, domain, env);
    }
  }

  lemma DeleteMakesNoRow(w: World, k: MiniId, domain: string, env: Env)
    ensures var table := Delete(w, k, domain, env).world.table; k !in table && table.Keys <= w.table.Keys
  {
  }

  lemma UpdateMakesNoRow(w: World, k: MiniId, patch: map<Field, string>, version: Option<string>, domain: string, env: Env)
    requires ModsListed(w, env)
    ensures Update(w, k, patch, version, domain, env).world.table.Keys == w.table.Keys
  {
    if k in w.table && PatchFields(w.table, w.table[k], FIELDS, patch).Some? {
      var w1, changed := UpdateIsPatchThenFinish(w, k, patch, version, domain, env);
      FinishUpdateSites(w1, k, changed, version, domain, env);
    }
  }

  lemma FinishDecides(w: World, id: MiniId, changed: set<Field>, version: Option<string>, domain: string, env: Env)
    requires Agrees(w) && FreshEnv(w, env) && id in w.table && ModsListed(w, env)
    requires FinishUpdate(w, id, changed, version, domain, env).outcome == Returned
    ensures Running(FinishUpdate(w, id, changed, version, domain, env).world, id) <==>
            w.table[id].started || (version.Some? && w.table[id].mcVersion != version.value)
  {
    if version.Some? && w.table[id].mcVersion != version.value {
      ApplyVersionReturnsExactlyWhen(w, id, version.value, env);
      VersionUpdateRuns(w, id, version.value, env);
    }
  }

  /** An update that returns runs the miniverse if it comes with another version. */
  lemma UpdateDecides(w: World, id: MiniId, patch: map<Field, string>, version: Option<string>, domain: string, env: Env)
    requires Agrees(w) && FreshEnv(w, env) && ModsListed(w, env)
    requires Update(w, id, patch, version, domain, env).outcome == Returned
    ensures id in w.table
    ensures Running(Update(w, id, patch, version, domain, env).world, id) <==>
            w.table[id].started || (version.Some? && w.table[id].mcVersion != version.value)
  {
    PatchKeepsRest(w.table, w.table[id], FIELDS, patch);
    var w1, changed := UpdateIsPatchThenFinish(w, id, patch, version, domain, env);
    OtherFieldsDoNotMatter(w, w1);
    FinishDecides(w1, id, changed, version, domain, env);
  }

  lemma CreateDecides(w: World, r: Request, domain: string, env: Env)
    requires Agrees(w) && FreshEnv(w, env) && r.CreateOne? && r.id !in w.table && ModsListed(w, env)
    requires Handle(w, r, domain, env).outcome == Returned
    ensures Running(Handle(w, r, domain, env).world, r.id)
  {
    CreateKeepsAgreementExactlyWhen(w, r.id, r.attrs, r.kind, r.version, domain, env);
    CreateRuns(w, r.id, r.attrs, r.kind, r.version, domain, env);
  }

  lemma StartDecides(w: World, id: MiniId, env: Env)
    requires Agrees(w) && FreshEnv(w, env) && id in w.table
    ensures Running(Start(w, id, env).world, id) && Running(Restart(w, id, env).world, id) && !Running(Stop(w, id).world, id)
  {
    StartKeepsAgreement(w, id, env);
    RestartKeepsAgreement(w, id, env);
    StopEffect(w, id);
  }

  /** Where rows, containers, controllers and tasks agree, a request that returns decides which miniverses run. */
  lemma RequestDecides(w: World, r: Request, w': World, domain: string, env: Env, id: MiniId)
    requires Agrees(w) && HandledTo(w, r, w', domain, env)
    ensures Running(w', id) <==> RunningAfter(Running(w, id), EffectOn(w, r, id))
  {
    if r.id != id {
      OthersDoNotDecide(w, r, domain, env, id);
    } else {
      match r
      case CreateOne(_, _, _, _) => CreateDecides(w, r, domain, env);
      case UpdateOne(_, patch, version) => UpdateDecides(w, id, patch, version, domain, env);
      case DeleteOne(_) => DeleteMakesNoRow(w, id, domain, env);
      case _ => StartDecides(w, id, env);
    }
  }

  lemma StepAt(states: seq<World>, requests: seq<Request>, envs: seq<Env>, domain: string, owner: ModsSafety.Owner, id: MiniId, n: nat)
    requires IsRun(states, requests, envs, domain, owner) && Healthy(states[0], domain, owner) && n < |requests|
    ensures Running(states[n + 1], id) <==> RunningAfter(Running(states[n], id), EffectOn(states[n], requests[n], id))
  {
    RunStaysHealthy(states[..n + 1], requests[..n], envs[..n], domain, owner);
    assert HandledTo(states[n], requests[n], states[n + 1], domain, envs[n]);
    RequestDecides(states[n], requests[n], states[n + 1], domain, envs[n], id);
  }

  /** The requests' effects on one miniverse, and whether it runs before, between and after them. */
  function EffectsOn(states: seq<World>, requests: seq<Request>, id: MiniId): seq<Effect>
    requires |states| == |requests| + 1
  {
    seq(|requests|, i requires 0 <= i < |requests| => EffectOn(states[i], requests[i], id))
  }

  function RunningIn(states: seq<World>, id: MiniId): seq<bool> {
    seq(|states|, i requires 0 <= i < |states| => Running(states[i], id))
  }

  ghost predicate FollowEffects(running: seq<bool>, effects: seq<Effect>) {
    && |running| == |effects| + 1
    && forall n: nat | n < |effects| :: running[n + 1] == RunningAfter(running[n], effects[n])
  }

  /** The last effect that is not to keep decides; without one it stays as it is. */
  lemma {:induction false} LastEffectDecides(running: seq<bool>, effects: seq<Effect>, from: nat, n: nat)
    requires FollowEffects(running, effects) && from <= n <= |effects|
    requires forall j | from <= j < n :: effects[j] == Keeps
    ensures running[n] == running[from]
    decreases n
  {
    if from < n {
      LastEffectDecides(running, effects, from, n - 1);
      assert running[n - 1 + 1] == RunningAfter(running[n - 1], effects[n - 1]);
    }
  }

  lemma RunFollowsEffects(states: seq<World>, requests: seq<Request>, envs: seq<Env>, domain: string, owner: ModsSafety.Owner, id: MiniId)
    requires IsRun(states, requests, envs, domain, owner) && Healthy(states[0], domain, owner)
    ensures FollowEffects(RunningIn(states, id), EffectsOn(states, requests, id))
  {
    forall n: nat | n < |requests|
      ensures Running(states[n + 1], id) == RunningAfter(Running(states[n], id), EffectOn(states[n], requests[n], id))
    {
      StepAt(states, requests, envs, domain, owner, id, n);
    }
  }

  /** In every run of requests that return, a miniverse runs at the end exactly when the last request that decides it
      says so, or none decides it and it ran at the start; and it then runs in its own container, under the stored id. */
  lemma LastRequestDecides(states: seq<World>, requests: seq<Request>, envs: seq<Env>, domain: string, owner: ModsSafety.Owner, id: MiniId, i: nat)
    requires IsRun(states, requests, envs, domain, owner) && Healthy(states[0], domain, owner)
    requires i <= |requests| && forall j | i <= j < |requests| :: EffectsOn(states, requests, id)[j] == Keeps
    ensures i == 0 ==> (Running(states[|requests|], id) <==> Running(states[0], id))
    ensures i > 0 && EffectsOn(states, requests, id)[i - 1] != Keeps ==>
              (Running(states[|requests|], id) <==> EffectsOn(states, requests, id)[i - 1] == Starts)
    ensures Running(states[|requests|], id) ==> RunsStored(states[|requests|], id)
  {
    RunFollowsEffects(states, requests, envs, domain, owner, id);
    var running, effects := RunningIn(states, id), EffectsOn(states, requests, id);
    LastEffectDecides(running, effects, i, |requests|);
    if i > 0 {
      assert running[i - 1 + 1] == RunningAfter(running[i - 1], effects[i - 1]);
    }
    RunStaysHealthy(states, requests, envs, domain, owner);
    if Running(states[|requests|], id) {
      StartedExactlyWhenRunning(states[|requests|], id);
    }
  }
}
