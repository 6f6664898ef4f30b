/** What any run of miniverse requests that return normally keeps. */
module LifecycleSafety {
  import opened Text
  import opened VersionOrder
  import opened Lifecycle
  import Mods
  import ModsSafety

  /* ---- rows, containers, controllers and tasks agree ---- */

  /** The named container runs, under the stored id. */
  predicate RunsStored(w: World, id: MiniId)
    requires id in w.table
  {
    id in w.containers && w.containers[id].running && w.table[id].containerId == Some(w.containers[id].cid)
  }

  /** The websocket controller's task is its one live task. */
  predicate Connected(w: World, id: MiniId)
    requires id in w.controllers
  {
    match w.controllers[id]
    case Router => true
    case WebSocket(None) => false
    case WebSocket(Some(t)) => t in w.tasks && w.tasks[t] == id
  }

  predicate Idle(w: World, id: MiniId)
    requires id in w.controllers
  {
    w.controllers[id] == Router || w.controllers[id] == WebSocket(None)
  }

  /** A started miniverse runs and is connected; a stopped one has no container, no stored id and no task. */
  predicate Fits(w: World, id: MiniId)
    requires id in w.table
  {
    && id in w.controllers
    && (w.table[id].started ==> RunsStored(w, id) && Connected(w, id))
    && (!w.table[id].started ==> id !in w.containers && w.table[id].containerId == None && Idle(w, id))
  }

  /** Every live task is the one its controller holds. */
  predicate TaskHeld(w: World, t: nat)
    requires t in w.tasks
  {
    w.tasks[t] in w.controllers && w.controllers[w.tasks[t]] == WebSocket(Some(t))
  }

  ghost predicate OwnIds(containers: map<MiniId, Container>) {
    forall a, b | a in containers && b in containers && a != b :: containers[a].cid != containers[b].cid
  }

  ghost predicate Agrees(w: World) {
    && w.controllers.Keys == w.table.Keys && w.containers.Keys <= w.table.Keys
    && (forall id {:trigger Fits(w, id)} | id in w.table :: Fits(w, id))
    && (forall t {:trigger TaskHeld(w, t)} | t in w.tasks :: TaskHeld(w, t))
    && OwnIds(w.containers)
  }

  /** The container and task a request may use are new. */
  ghost predicate FreshEnv(w: World, env: Env) {
    env.newTask !in w.tasks && forall id | id in w.containers :: w.containers[id].cid != env.newCid
  }

  /** Started exactly when the named container runs under the stored id; and then a websocket controller has exactly
      one live connect task, else none. */
  lemma StartedExactlyWhenRunning(w: World, id: MiniId)
    requires Agrees(w) && id in w.table
    ensures w.table[id].started <==> RunsStored(w, id)
    ensures id in w.controllers && (w.controllers[id].WebSocket? ==>
              if w.table[id].started then exists t :: t in w.tasks && w.tasks[t] == id && forall u | u in w.tasks && w.tasks[u] == id :: u == t
              else forall t | t in w.tasks :: w.tasks[t] != id)
  {
    assert Fits(w, id);
    forall t | t in w.tasks && w.tasks[t] == id ensures w.controllers[id] == WebSocket(Some(t)) {
      assert TaskHeld(w, t);
    }
    if w.table[id].started && w.controllers[id].WebSocket? {
      var t := w.controllers[id].task.value;
      assert t in w.tasks && w.tasks[t] == id;
    }
  }

  /** Starting a started miniverse changes nothing. */
  lemma StartWhenStarted(w: World, id: MiniId, env: Env)
    requires Agrees(w) && id in w.table && w.table[id].started
    ensures Start(w, id, env) == Done(w, Returned)
  {
    assert Fits(w, id);
  }

  /** Starting a stopped miniverse makes its container and, for a websocket controller, its task. */
  lemma StartWhenStopped(w: World, id: MiniId, env: Env)
    requires Agrees(w) && id in w.table && !w.table[id].started
    ensures var c := w.controllers[id];
            Start(w, id, env) == Done(
              w.(table := w.table[id := w.table[id].(started := true, containerId := Some(env.newCid))],
                 containers := w.containers[id := Container(env.newCid, true)],
                 controllers := if c == Router then w.controllers else w.controllers[id := WebSocket(Some(env.newTask))],
                 tasks := if c == Router then w.tasks else w.tasks[env.newTask := id]), Returned)
  {
    assert Fits(w, id);
  }

  lemma StartKeepsAgreement(w: World, id: MiniId, env: Env)
    requires Agrees(w) && FreshEnv(w, env) && id in w.table
    ensures Start(w, id, env).outcome == Returned && Agrees(Start(w, id, env).world)
    ensures Start(w, id, env).world.table[id].started
  {
    if w.table[id].started {
      StartWhenStarted(w, id, env);
    } else {
      StartWhenStopped(w, id, env);
      var w' := Start(w, id, env).world;
      forall k | k in w'.table ensures Fits(w', k) {
        assert Fits(w, k);
      }
      forall t | t in w'.tasks ensures TaskHeld(w', t) {
        if t in w.tasks {
          assert TaskHeld(w, t) && Fits(w, id);
        }
      }
    }
  }

  /** Whatever the rows, containers and controllers were, after a start the named container runs under the stored id,
      and no other container or row is touched. */
  lemma StartRunsStored(w: World, id: MiniId, env: Env)
    requires id in w.table
    ensures var w' := Start(w, id, env).world;
            && id in w'.table && w'.table[id].started && RunsStored(w', id)
            && (id in w.containers ==> w'.containers[id].cid == w.containers[id].cid && w'.tasks == w.tasks)
            && forall k | k != id :: (k in w'.containers <==> k in w.containers) && (k in w.containers ==> w'.containers[k] == w.containers[k])
  {
  }

  /** A stop leaves the named container exactly when the row does not hold its id, whether it holds none or another:
      the container looked up by name is not stopped. */
  lemma StopLeavesContainerExactlyWhen(w: World, id: MiniId)
    requires id in w.table
    ensures var w' := Stop(w, id).world;
            && id in w'.table && (id in w.controllers ==> !w'.table[id].started && w'.table[id].containerId == None)
            && (id in w'.containers <==> id in w.containers && w.table[id].containerId != Some(w.containers[id].cid))
            && (id !in w.controllers ==> w' == w.(containers := w'.containers))
  {
  }

  /** Removing the container stored for a miniverse removes that miniverse's container and no other. */
  lemma StopRemovesOwnContainer(w: World, id: MiniId)
    requires Agrees(w) && id in w.table
    ensures StopContainer(w, id) == w.(containers := w.containers - {id})
  {
    assert Fits(w, id);
  }

  /** What a stop leaves: nothing of this miniverse's container and task, everything of the others'. */
  lemma StopEffect(w: World, id: MiniId)
    requires Agrees(w) && id in w.table
    ensures var c := w.controllers[id];
            Stop(w, id) == Done(
              w.(table := w.table[id := w.table[id].(started := false, containerId := None)],
                 containers := w.containers - {id},
                 controllers := if c == Router then w.controllers else w.controllers[id := WebSocket(None)],
                 tasks := if c.WebSocket? && c.task.Some? then w.tasks - {c.task.value} else w.tasks), Returned)
  {
    StopRemovesOwnContainer(w, id);
    assert Fits(w, id);
    if w.controllers[id] == WebSocket(None) {
      assert w.controllers[id := WebSocket(None)] == w.controllers;
    }
  }

  lemma StopKeepsAgreement(w: World, id: MiniId)
    requires Agrees(w) && id in w.table
    ensures Stop(w, id).outcome == Returned && Agrees(Stop(w, id).world)
  {
    StopEffect(w, id);
    var w' := Stop(w, id).world;
    forall k | k in w'.table ensures Fits(w', k) {
      assert Fits(w, k) && Fits(w, id);
    }
    forall t | t in w'.tasks ensures TaskHeld(w', t) {
      assert TaskHeld(w, t);
    }
  }

  lemma FreshAfterStop(w: World, id: MiniId, env: Env)
    requires Agrees(w) && id in w.table && FreshEnv(w, env)
    ensures FreshEnv(Stop(w, id).world, env)
  {
    StopEffect(w, id);
  }

  lemma RestartKeepsAgreement(w: World, id: MiniId, env: Env)
    requires Agrees(w) && FreshEnv(w, env) && id in w.table
    ensures Restart(w, id, env).outcome == Returned && Agrees(Restart(w, id, env).world)
    ensures Restart(w, id, env).world.table[id].started
  {
    StopKeepsAgreement(w, id);
    FreshAfterStop(w, id, env);
    StartKeepsAgreement(Stop(w, id).world, id, env);
  }

  /* ---- creating and deleting ---- */

  /** A new row with its controller, not started yet. */
  lemma NewRowAgrees(w: World, id: MiniId, row: Mini, c: Controller)
    requires Agrees(w) && id !in w.table && !row.started && row.containerId == None && c in {Router, WebSocket(None)}
    ensures Agrees(w.(table := w.table[id := row], controllers := w.controllers[id := c]))
  {
    var w' := w.(table := w.table[id := row], controllers := w.controllers[id := c]);
    forall k | k in w'.table ensures Fits(w', k) {
      if k != id { assert Fits(w, k); }
    }
    forall t | t in w'.tasks ensures TaskHeld(w', t) {
      assert TaskHeld(w, t);
    }
  }

  /** Creating keeps the agreement exactly when the version can be compared, and that is when it returns: otherwise
      the row is committed but has no controller. */
  lemma CreateKeepsAgreementExactlyWhen(w: World, id: MiniId, attrs: map<Field, string>, kind: ServerType, mcVersion: string, domain: string, env: Env)
    requires Agrees(w) && FreshEnv(w, env) && id !in w.table
    ensures var done := Create(w, id, attrs, kind, mcVersion, domain, env);
            (Agrees(done.world) <==> NewController(env.compare, mcVersion).Some?)
            && (done.outcome == Returned <==> NewController(env.compare, mcVersion).Some?)
  {
    var row := Mini(attrs, kind, mcVersion, None, false);
    var c := NewController(env.compare, mcVersion);
    if c.Some? {
      NewRowAgrees(w, id, row, c.value);
      var w2 := w.(table := w.table[id := row], controllers := w.controllers[id := c.value]);
      StartKeepsAgreement(w2, id, env);
      RoutesDoNotMatter(Start(w2, id, env).world, domain, env);
    }
  }

  lemma RoutesDoNotMatter(w: World, domain: string, env: Env)
    requires Agrees(w)
    ensures Agrees(WriteRoutes(w, domain, env))
  {
    var w' := WriteRoutes(w, domain, env);
    forall k | k in w'.table ensures Fits(w', k) { assert Fits(w, k); }
    forall t | t in w'.tasks ensures TaskHeld(w', t) { assert TaskHeld(w, t); }
  }

  /** What a deletion leaves of rows, containers, controllers and tasks. */
  lemma DeleteEffect(w: World, id: MiniId, domain: string, env: Env)
    requires Agrees(w) && id in w.table
    ensures var c := w.controllers[id];
            Delete(w, id, domain, env) == Done(
              WriteRoutes(w.(table := w.table - {id}, containers := w.containers - {id}, controllers := w.controllers - {id},
                             tasks := if c.WebSocket? && c.task.Some? then w.tasks - {c.task.value} else w.tasks,
                             mods := DropMods(w.mods, id)), domain, env), Returned)
  {
    assert Fits(w, id);
    StopRemovesOwnContainer(w, id);
    var w1 := RemoveMiniverse(w, id);
    assert w1.controllers == w.controllers - {id};
    assert w1.containers == w.containers && w1.table == w.table;
    assert StopContainer(w1, id).containers == StopContainer(w, id).containers;
  }

  lemma DeleteKeepsAgreement(w: World, id: MiniId, domain: string, env: Env)
    requires Agrees(w) && id in w.table
    ensures Delete(w, id, domain, env).outcome == Returned && Agrees(Delete(w, id, domain, env).world)
  {
    DeleteEffect(w, id, domain, env);
    var w' := Delete(w, id, domain, env).world;
    forall k | k in w'.table ensures Fits(w', k) {
      assert Fits(w, k) && Fits(w, id);
    }
    forall t | t in w'.tasks ensures TaskHeld(w', t) {
      assert TaskHeld(w, t);
    }
  }

  /* ---- updating ---- */

  /** Setting attributes, the version or the mods leaves the agreement alone. */
  lemma OtherFieldsDoNotMatter(w: World, w': World)
    requires Agrees(w) && w'.table.Keys == w.table.Keys
    requires forall id | id in w.table :: w'.table[id].started == w.table[id].started && w'.table[id].containerId == w.table[id].containerId
    requires w'.containers == w.containers && w'.controllers == w.controllers && w'.tasks == w.tasks
    ensures Agrees(w')
  {
    forall k | k in w'.table ensures Fits(w', k) { assert Fits(w, k); }
    forall t | t in w'.tasks ensures TaskHeld(w', t) { assert TaskHeld(w, t); }
  }

  lemma ApplyVersionKeepsAgreement(w: World, id: MiniId, version: string, env: Env)
    requires Agrees(w) && FreshEnv(w, env) && id in w.table && ModsListed(w, env)
    ensures Agrees(ApplyVersion(w, id, version, env).world)
  {
    var upgraded := UpgradedMods(w, id, version, env);
    var w1 := w.(mods := upgraded.state);
    OtherFieldsDoNotMatter(w, w1);
    if upgraded.ok {
      StopKeepsAgreement(w1, id);
      FreshAfterStop(w1, id, env);
      StopEffect(w1, id);
      var w2 := Stop(w1, id).world;
      var w3 := w2.(table := w2.table[id := w2.table[id].(mcVersion := version)]);
      OtherFieldsDoNotMatter(w2, w3);
      StartKeepsAgreement(w3, id, env);
    }
  }

  lemma {:induction false} PatchKeepsRest(table: map<MiniId, Mini>, row: Mini, fields: seq<Field>, patch: map<Field, string>)
    requires PatchFields(table, row, fields, patch).Some?
    ensures var (r, changed) := PatchFields(table, row, fields, patch).value;
            && r.started == row.started && r.containerId == row.containerId && r.mcVersion == row.mcVersion && r.kind == row.kind
            && (forall f | f !in changed :: GetAttr(r, f) == GetAttr(row, f))
            && (forall f | f in changed :: f in fields && f in patch && GetAttr(r, f) == Some(patch[f]))
            && (forall f | f in changed && f in {NameField, Subdomain} :: !Taken(table, f, patch[f]))
  {
    if fields != [] {
      PatchKeepsRest(table, row, fields[..|fields| - 1], patch);
    }
  }

  /** A field is set to a new value that is taken by another miniverse. */
  predicate Conflicts(table: map<MiniId, Mini>, row: Mini, f: Field, patch: map<Field, string>) {
    f in {NameField, Subdomain} && f in patch && GetAttr(row, f) != Some(patch[f]) && Taken(table, f, patch[f])
  }

  /** After setting fields, every given field has its given value, every other field its old one, and the
      changed fields are the ones that differed. */
  lemma {:induction false} PatchIsExact(table: map<MiniId, Mini>, row: Mini, fields: seq<Field>, patch: map<Field, string>, f: Field)
    requires PatchFields(table, row, fields, patch).Some?
    ensures var (r, changed) := PatchFields(table, row, fields, patch).value;
            && GetAttr(r, f) == (if f in fields && f in patch then Some(patch[f]) else GetAttr(row, f))
            && (f in changed <==> f in fields && f in patch && GetAttr(row, f) != Some(patch[f]))
  {
    if fields != [] {
      var n := |fields| - 1;
      var last := fields[n];
      LastOrBefore(fields, f);
      PatchIsExact(table, row, fields[..n], patch, f);
      var (r, changed) := PatchFields(table, row, fields[..n], patch).value;
      if f == last && last in patch && GetAttr(r, last) != Some(patch[last]) {
        assert GetAttr(r.(attrs := r.attrs[last := patch[last]]), f) == Some(patch[f]);
      }
    }
  }

  lemma LastOrBefore(fields: seq<Field>, f: Field)
    requires fields != []
    ensures f in fields <==> f in fields[..|fields| - 1] || f == fields[|fields| - 1]
  {
    assert fields == fields[..|fields| - 1] + [fields[|fields| - 1]];
  }

  /** Setting fields is refused exactly when a new name or subdomain among them is taken. */
  lemma {:induction false} PatchIsRefusedExactlyWhen(table: map<MiniId, Mini>, row: Mini, fields: seq<Field>, patch: map<Field, string>)
    ensures PatchFields(table, row, fields, patch).None? <==> exists f :: f in fields && Conflicts(table, row, f, patch)
  {
    if fields != [] {
      var n := |fields| - 1;
      var front, last := fields[..n], fields[n];
      assert forall f :: f in fields <==> f in front || f == last;
      PatchIsRefusedExactlyWhen(table, row, front, patch);
      if PatchFields(table, row, front, patch).Some? {
        PatchIsExact(table, row, front, patch, last);
      }
    }
  }

  lemma FinishUpdateKeepsAgreement(w: World, id: MiniId, changed: set<Field>, version: Option<string>, domain: string, env: Env)
    requires Agrees(w) && FreshEnv(w, env) && id in w.table && ModsListed(w, env)
    ensures Agrees(FinishUpdate(w, id, changed, version, domain, env).world)
  {
    if version.Some? {
      ApplyVersionKeepsAgreement(w, id, version.value, env);
      RoutesDoNotMatter(ApplyVersion(w, id, version.value, env).world, domain, env);
    }
    RoutesDoNotMatter(w, domain, env);
  }

  lemma UpdateKeepsAgreement(w: World, id: MiniId, patch: map<Field, string>, version: Option<string>, domain: string, env: Env)
    requires Agrees(w) && FreshEnv(w, env) && id in w.table && ModsListed(w, env)
    ensures Agrees(Update(w, id, patch, version, domain, env).world)
  {
    var patched := PatchFields(w.table, w.table[id], FIELDS, patch);
    if patched.Some? {
      PatchKeepsRest(w.table, w.table[id], FIELDS, patch);
      var (row, changed) := patched.value;
      var w1 := w.(table := w.table[id := row]);
      OtherFieldsDoNotMatter(w, w1);
      FinishUpdateKeepsAgreement(w1, id, changed, version, domain, env);
    }
  }

  /** What a request for a new version needs once the checks have passed: the versions of all available mod updates
      can be put in the folder. */
  ghost predicate UpgradeWorks(w: World, id: MiniId, version: string, env: Env)
    requires id in w.table && ModsListed(w, env)
  {
    HasMods(w.table[id].kind) ==> forall k | k in env.modList :: Mods.UpdateWorks(ModUpdates(w, env, version), env.details, k)
  }

  lemma UpgradedExactlyWhen(w: World, id: MiniId, version: string, env: Env)
    requires id in w.table && ModsListed(w, env)
    ensures UpgradedMods(w, id, version, env).ok <==> UpgradeWorks(w, id, version, env)
  {
    if HasMods(w.table[id].kind) {
      UpdatesUsable(w, env, version);
      Mods.UpgradeAllSucceedsExactlyWhen(w.mods, env.modList, ModUpdates(w, env, version), env.details);
    }
  }

  lemma ApplyVersionReturnsExactlyWhen(w: World, id: MiniId, version: string, env: Env)
    requires Agrees(w) && FreshEnv(w, env) && id in w.table && ModsListed(w, env)
    ensures ApplyVersion(w, id, version, env).outcome == Returned <==> UpgradeWorks(w, id, version, env)
  {
    UpgradedExactlyWhen(w, id, version, env);
    var upgraded := UpgradedMods(w, id, version, env);
    if upgraded.ok {
      var w1 := w.(mods := upgraded.state);
      OtherFieldsDoNotMatter(w, w1);
      StopKeepsAgreement(w1, id);
      FreshAfterStop(w1, id, env);
      StopEffect(w1, id);
      var w2 := Stop(w1, id).world;
      var w3 := w2.(table := w2.table[id := w2.table[id].(mcVersion := version)]);
      OtherFieldsDoNotMatter(w2, w3);
      StartKeepsAgreement(w3, id, env);
    }
  }

  /** No new version is asked for, or the checks accept it and the mods can be upgraded. */
  ghost predicate VersionWorks(w: World, id: MiniId, version: Option<string>, env: Env)
    requires id in w.table && ModsListed(w, env)
  {
    || version.None? || w.table[id].mcVersion == version.value
    || (!VersionRefused(w, id, version.value, env) && UpgradeWorks(w, id, version.value, env))
  }

  lemma FinishReturnsExactlyWhen(w: World, id: MiniId, changed: set<Field>, version: Option<string>, domain: string, env: Env)
    requires Agrees(w) && FreshEnv(w, env) && id in w.table && ModsListed(w, env)
    ensures FinishUpdate(w, id, changed, version, domain, env).outcome == Returned <==> VersionWorks(w, id, version, env)
  {
    if version.Some? {
      ApplyVersionReturnsExactlyWhen(w, id, version.value, env);
    }
  }

  /** A new name or subdomain among the given fields is taken. */
  ghost predicate FieldsRefused(w: World, id: MiniId, patch: map<Field, string>)
    requires id in w.table
  {
    exists f :: f in FIELDS && Conflicts(w.table, w.table[id], f, patch)
  }

  /** When an update returns, in terms of the state before it. */
  lemma UpdateReturnsExactlyWhen(w: World, id: MiniId, patch: map<Field, string>, version: Option<string>, domain: string, env: Env)
    requires Agrees(w) && FreshEnv(w, env) && id in w.table && ModsListed(w, env)
    ensures Update(w, id, patch, version, domain, env).outcome == Returned <==>
            !FieldsRefused(w, id, patch) && VersionWorks(w, id, version, env)
  {
    PatchIsRefusedExactlyWhen(w.table, w.table[id], FIELDS, patch);
    var patched := PatchFields(w.table, w.table[id], FIELDS, patch);
    if patched.Some? {
      PatchKeepsRest(w.table, w.table[id], FIELDS, patch);
      var (row, changed) := patched.value;
      var w1 := w.(table := w.table[id := row]);
      OtherFieldsDoNotMatter(w, w1);
      FinishReturnsExactlyWhen(w1, id, changed, version, domain, env);
      assert VersionWorks(w1, id, version, env) <==> VersionWorks(w, id, version, env);
    }
  }
}
