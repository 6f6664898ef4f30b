/** What each request on a miniverse leaves, in full, when rows, containers, controllers and tasks agree. */
module LifecycleEffects {
  import opened Text
  import opened Versions
  import opened VersionOrder
  import opened Routes
  import opened Lifecycle
  import opened LifecycleSafety
  import opened LifecycleRuns
  import opened ControllerKinds
  import Mods
  import ModsSafety

  /* ---- running ---- */

  /** The miniverse runs in this container, and is connected; the others' rows, containers and controllers are as they
      were. */
  ghost predicate RunsIn(w: World, w': World, id: MiniId, cid: nat) {
    && id in w'.table && id in w'.controllers && w'.table[id].started && RunsStored(w', id) && Connected(w', id)
    && w'.containers[id].cid == cid && w'.table[id].containerId == Some(cid)
    && OthersKept(w, w', id)
  }

  ghost predicate OthersKept(w: World, w': World, id: MiniId) {
    forall k | k != id ::
      && (k in w'.table <==> k in w.table) && (k in w.table ==> w'.table[k] == w.table[k])
      && (k in w'.containers <==> k in w.containers) && (k in w.containers ==> w'.containers[k] == w.containers[k])
      && (k in w'.controllers <==> k in w.controllers) && (k in w.controllers ==> w'.controllers[k] == w.controllers[k])
  }

  /** Starting a stopped miniverse runs it in the new container. */
  lemma StartRuns(w: World, id: MiniId, env: Env)
    requires Agrees(w) && FreshEnv(w, env) && id in w.table && !w.table[id].started
    ensures Start(w, id, env).outcome == Returned && RunsIn(w, Start(w, id, env).world, id, env.newCid)
    ensures var row := Start(w, id, env).world.table[id];
            row == w.table[id].(started := true, containerId := Some(env.newCid))
    ensures var w' := Start(w, id, env).world; w'.mods == w.mods && w'.routes == w.routes
  {
    assert Fits(w, id);
    StartWhenStopped(w, id, env);
  }

  /** A start returns exactly when the miniverse is there and its container or its controller is. */
  lemma StartReturnsExactlyWhen(w: World, id: MiniId, env: Env)
    ensures Start(w, id, env).outcome == Returned <==> id in w.table && (id in w.containers || id in w.controllers)
    ensures id !in w.table ==> Start(w, id, env).world == w
  {
  }

  /** A stop returns exactly when the miniverse and its controller are there. */
  lemma StopReturnsExactlyWhen(w: World, id: MiniId)
    ensures Stop(w, id).outcome == Returned <==> id in w.table && id in w.controllers
    ensures id !in w.table ==> Stop(w, id).world == w
  {
  }

  /** A restart, of a started or a stopped miniverse, runs it in the new container. */
  lemma RestartRuns(w: World, id: MiniId, env: Env)
    requires Agrees(w) && FreshEnv(w, env) && id in w.table
    ensures Restart(w, id, env).outcome == Returned && RunsIn(w, Restart(w, id, env).world, id, env.newCid)
    ensures Restart(w, id, env).world.table[id] == w.table[id].(started := true, containerId := Some(env.newCid))
    ensures var w' := Restart(w, id, env).world; w'.mods == w.mods && w'.routes == w.routes
  {
    StopKeepsAgreement(w, id);
    StopEffect(w, id);
    FreshAfterStop(w, id, env);
    StartRuns(Stop(w, id).world, id, env);
  }

  /** A controller is started once: a second start keeps the task it holds. A stop lets go of it, and stops no other. */
  lemma ControllerTasks(w: World, id: MiniId, task: nat, newTask: nat)
    requires id in w.controllers && w.controllers[id] == WebSocket(Some(task))
    ensures StartController(w, id, newTask) == w
    ensures var w' := StopController(w, id);
            w'.controllers == w.controllers[id := WebSocket(None)] && w'.tasks == w.tasks - {task} && w'.table == w.table
    ensures StartController(StopController(w, id), id, newTask).controllers[id] == WebSocket(Some(newTask))
    ensures newTask in StartController(StopController(w, id), id, newTask).tasks
  {
  }

  /** Where a miniverse has a controller adding one starts that one, whatever the version: it is connected afterwards,
      unless it held a task that is not live. */
  lemma AddFindsController(w: World, id: MiniId, version: string, env: Env)
    requires id in w.controllers
    ensures var added := AddMiniverse(w, id, version, env);
            && added.Some? && added.value.controllers.Keys == w.controllers.Keys
            && added.value.controllers[id].WebSocket? == w.controllers[id].WebSocket?
            && (Idle(w, id) || Connected(w, id) ==> Connected(added.value, id))
            && added.value.table == w.table && added.value.containers == w.containers
  {
  }

  /* ---- creating ---- */

  /** A creation that returns: a row with what was asked for, running in the new container under the controller its
      version gets, and routes written; everything of the others is as it was. */
  lemma CreateRuns(w: World, id: MiniId, attrs: map<Field, string>, kind: ServerType, version: string, domain: string, env: Env)
    requires Agrees(w) && FreshEnv(w, env) && id !in w.table && NewController(env.compare, version).Some?
    ensures var done := Create(w, id, attrs, kind, version, domain, env);
            && done.outcome == Returned && RunsIn(w, done.world, id, env.newCid)
            && done.world.table[id] == Mini(attrs, kind, version, Some(env.newCid), true)
            && done.world.controllers[id].WebSocket? == NewController(env.compare, version).value.WebSocket?
            && done.world.mods == w.mods && done.world.routes == GenerateRoutes(SitesOf(done.world.table, env.order), domain)
  {
    var row, c := Mini(attrs, kind, version, None, false), NewController(env.compare, version).value;
    NewRowAgrees(w, id, row, c);
    var w2 := w.(table := w.table[id := row], controllers := w.controllers[id := c]);
    StartRuns(w2, id, env);
    StartWhenStopped(w2, id, env);
  }

  /** A creation that fails has stored the row, stopped, and nothing else. */
  lemma FailedCreate(w: World, id: MiniId, attrs: map<Field, string>, kind: ServerType, version: string, domain: string, env: Env)
    requires id !in w.controllers && NewController(env.compare, version).None?
    ensures Create(w, id, attrs, kind, version, domain, env) ==
            Done(w.(table := w.table[id := Mini(attrs, kind, version, None, false)]), Failed)
  {
  }

  /* ---- deleting ---- */

  /** The deleted miniverse's mods are gone with their files; those of the others are as they were. */
  lemma DropModsIsExact(s: Mods.State, id: MiniId, k: Mods.ModId, f: (MiniId, string))
    ensures var s' := DropMods(s, id);
            && (k in s'.rows <==> k in s.rows && s.rows[k].miniverse != id) && (k in s'.rows ==> s'.rows[k] == s.rows[k])
            && (f in s'.files <==> f in s.files && f.0 != id) && (f in s'.files ==> s'.files[f] == s.files[f])
  {
  }

  lemma NoTaskRemains(w: World, id: MiniId, domain: string, env: Env)
    requires Agrees(w) && id in w.table
    ensures forall t | t in Delete(w, id, domain, env).world.tasks :: Delete(w, id, domain, env).world.tasks[t] != id
  {
    DeleteEffect(w, id, domain, env);
    assert Fits(w, id);
    var tasks := Delete(w, id, domain, env).world.tasks;
    forall t | t in tasks ensures tasks[t] != id {
      assert TaskHeld(w, t);
    }
  }

  /** A deletion leaves nothing of the miniverse, and everything of the others. */
  lemma DeleteIsExact(w: World, id: MiniId, domain: string, env: Env)
    requires Agrees(w) && id in w.table
    ensures var done := Delete(w, id, domain, env);
            && done.outcome == Returned && id !in done.world.table && id !in done.world.containers && id !in done.world.controllers
            && OthersKept(w, done.world, id) && done.world.mods == DropMods(w.mods, id)
            && (forall t | t in done.world.tasks :: done.world.tasks[t] != id)
            && done.world.routes == GenerateRoutes(SitesOf(done.world.table, env.order), domain)
  {
    NoTaskRemains(w, id, domain, env);
    DeleteEffect(w, id, domain, env);
  }

  /* ---- updating ---- */

  /** The world of a stopped miniverse at its new version. */
  ghost function AtVersion(w: World, id: MiniId, version: string): World
    requires id in w.table
  {
    var w1 := Stop(w, id).world;
    assert id in w1.table;
    w1.(table := w1.table[id := w1.table[id].(mcVersion := version)])
  }

  lemma StoppedAtVersion(w: World, id: MiniId, version: string, env: Env)
    requires Agrees(w) && FreshEnv(w, env) && id in w.table
    ensures var w2 := AtVersion(w, id, version);
            && Agrees(w2) && FreshEnv(w2, env) && OthersKept(w, w2, id) && w2.mods == w.mods && w2.routes == w.routes
            && id in w2.table && w2.table[id] == w.table[id].(mcVersion := version, started := false, containerId := None)
  {
    StopKeepsAgreement(w, id);
    StopEffect(w, id);
    FreshAfterStop(w, id, env);
    OtherFieldsDoNotMatter(Stop(w, id).world, AtVersion(w, id, version));
  }

  lemma KeptTwice(w: World, w1: World, w2: World, id: MiniId)
    requires OthersKept(w, w1, id) && OthersKept(w1, w2, id)
    ensures OthersKept(w, w2, id)
  {
    forall k | k != id
      ensures && (k in w2.table <==> k in w.table) && (k in w.table ==> w2.table[k] == w.table[k])
              && (k in w2.containers <==> k in w.containers) && (k in w.containers ==> w2.containers[k] == w.containers[k])
              && (k in w2.controllers <==> k in w.controllers) && (k in w.controllers ==> w2.controllers[k] == w.controllers[k])
    {
      assert (k in w1.table <==> k in w.table) && (k in w1.containers <==> k in w.containers) && (k in w1.controllers <==> k in w.controllers);
    }
  }

  lemma RunsAtVersion(w: World, id: MiniId, version: string, env: Env)
    requires Agrees(w) && FreshEnv(w, env) && id in w.table
    ensures var done := Start(AtVersion(w, id, version), id, env);
            && done.outcome == Returned && RunsIn(w, done.world, id, env.newCid)
            && done.world.table[id] == w.table[id].(mcVersion := version, started := true, containerId := Some(env.newCid))
            && done.world.mods == w.mods && done.world.routes == w.routes
  {
    var w2 := AtVersion(w, id, version);
    StoppedAtVersion(w, id, version, env);
    StartRuns(w2, id, env);
    KeptTwice(w, w2, Start(w2, id, env).world, id);
  }

  lemma AppliedRuns(w: World, id: MiniId, version: string, env: Env)
    requires Agrees(w) && FreshEnv(w, env) && id in w.table && ModsListed(w, env) && UpgradeWorks(w, id, version, env)
    ensures var done := ApplyVersion(w, id, version, env);
            && done.outcome == Returned && RunsIn(w, done.world, id, env.newCid)
            && done.world.table[id] == w.table[id].(mcVersion := version, started := true, containerId := Some(env.newCid))
            && done.world.mods == UpgradedMods(w, id, version, env).state && done.world.routes == w.routes
  {
    UpgradedExactlyWhen(w, id, version, env);
    var w1 := w.(mods := UpgradedMods(w, id, version, env).state);
    OtherFieldsDoNotMatter(w, w1);
    StopReturnsExactlyWhen(w1, id);
    RunsAtVersion(w1, id, version, env);
    var done := Start(AtVersion(w1, id, version), id, env);
    assert ApplyVersion(w, id, version, env) == done;
    assert OthersKept(w, w1, id);
    KeptTwice(w, w1, done.world, id);
  }

  /** An accepted version update runs the miniverse, in a new container, at the new version, whether it was started or
      not; every other attribute is as it was, and so is everything of the others. */
  lemma VersionUpdateRuns(w: World, id: MiniId, version: string, env: Env)
    requires Agrees(w) && FreshEnv(w, env) && id in w.table && ModsListed(w, env)
    requires !VersionRefused(w, id, version, env) && UpgradeWorks(w, id, version, env)
    ensures var done := UpdateVersion(w, id, version, env);
            && done.outcome == Returned && RunsIn(w, done.world, id, env.newCid)
            && done.world.table[id] == w.table[id].(mcVersion := version, started := true, containerId := Some(env.newCid))
  {
    AppliedRuns(w, id, version, env);
  }

  /** What the checks before a version update refuse: the same version; one the comparison does not put after or level
      with the old one; and, for the three kinds with mods, a mod for which the listing failed or found nothing
      compatible. The other two kinds have no such check. */
  lemma VersionChecks(w: World, id: MiniId, version: string, env: Env)
    requires id in w.table && ModsListed(w, env)
    ensures var row, answer := w.table[id], env.compare(w.table[id].mcVersion, version);
            VersionRefused(w, id, version, env) <==>
            || row.mcVersion == version || answer == Raised || answer == Incomparable || (answer.Ordered? && answer.order > 0)
            || (row.kind !in {Vanilla, Paper} && exists k | k in env.modList :: BlocksUpdate(w, env, version, k))
  {
    var updates := ModUpdates(w, env, version);
    assert forall k | k in env.modList :: BlocksUpdate(w, env, version, k) <==> Blocked(updates[k]);
    if k :| k in env.modList && BlocksUpdate(w, env, version, k) {
      assert k in updates;
    }
  }

  predicate BlocksUpdate(w: World, env: Env, version: string, k: Mods.ModId) {
    k in w.mods.rows &&
    Mods.UpdateFor(env.list, w.mods.rows[k].projectId, w.mods.rows[k].versionId, version).status in {Mods.Failed, Mods.NoCompatible}
  }

  /** The two kinds without mods never have them touched by an update. */
  lemma KindsWithoutMods(w: World, id: MiniId, version: string, env: Env)
    requires id in w.table && ModsListed(w, env) && w.table[id].kind in {Vanilla, Paper}
    ensures UpgradeWorks(w, id, version, env) && UpdateVersion(w, id, version, env).world.mods == w.mods
  {
    ApplyVersionSites(w, id, version, env);
  }

  /** The other three take the available updates of every listed mod. */
  lemma KindsWithMods(w: World, id: MiniId, version: string, env: Env)
    requires id in w.table && ModsListed(w, env) && w.table[id].kind in {Fabric, Forge, NeoForge}
    ensures UpgradeWorks(w, id, version, env) <==> forall k | k in env.modList :: Mods.UpdateWorks(ModUpdates(w, env, version), env.details, k)
    ensures ApplyVersion(w, id, version, env).world.mods ==
            (UpdatesUsable(w, env, version); Mods.UpgradeAll(w.mods, env.modList, ModUpdates(w, env, version), env.details).state)
  {
    ApplyVersionSites(w, id, version, env);
    UpdatesUsable(w, env, version);
  }

  /* ---- fields ---- */

  /** The name or subdomain is already that of some miniverse. */
  ghost predicate InUse(w: World, f: Field, value: string) {
    exists k :: k in w.table && f in w.table[k].attrs && w.table[k].attrs[f] == value
  }

  /** Fields are refused exactly when a given name or subdomain that differs from the old one is in use. */
  lemma FieldsRefusedExactlyWhen(w: World, id: MiniId, patch: map<Field, string>)
    requires id in w.table
    ensures FieldsRefused(w, id, patch) <==>
            || (NameField in patch && GetAttr(w.table[id], NameField) != Some(patch[NameField]) && InUse(w, NameField, patch[NameField]))
            || (Subdomain in patch && GetAttr(w.table[id], Subdomain) != Some(patch[Subdomain]) && InUse(w, Subdomain, patch[Subdomain]))
  {
    assert FIELDS[0] == NameField && FIELDS[2] == Subdomain;
    assert forall f: Field, value :: Taken(w.table, f, value) <==> InUse(w, f, value);
    if FieldsRefused(w, id, patch) {
      var f :| f in FIELDS && Conflicts(w.table, w.table[id], f, patch);
    }
    assert NameField in FIELDS && Subdomain in FIELDS;
    if Conflicts(w.table, w.table[id], NameField, patch) || Conflicts(w.table, w.table[id], Subdomain, patch) {
      assert FieldsRefused(w, id, patch);
    }
  }

  lemma AllFieldsAreSet(f: Field)
    ensures f in FIELDS
  {
    assert FIELDS[0] == NameField && FIELDS[1] == Description && FIELDS[2] == Subdomain;
    assert FIELDS[3] == JavaVersion && FIELDS[4] == AllowBedrock && FIELDS[5] == OnlineMode;
  }

  /** Unless its fields are refused, an update, however it ends, gives every field the given value, and keeps every
      field that is not given. */
  lemma UpdateSetsEveryField(w: World, id: MiniId, patch: map<Field, string>, version: Option<string>, domain: string, env: Env, f: Field)
    requires id in w.table && ModsListed(w, env)
    ensures var w' := Update(w, id, patch, version, domain, env).world;
            && id in w'.table
            && (FieldsRefused(w, id, patch) ==> w' == w)
            && (!FieldsRefused(w, id, patch) ==>
                  GetAttr(w'.table[id], f) == if f in patch then Some(patch[f]) else GetAttr(w.table[id], f))
  {
    PatchIsRefusedExactlyWhen(w.table, w.table[id], FIELDS, patch);
    if PatchFields(w.table, w.table[id], FIELDS, patch).Some? {
      AllFieldsAreSet(f);
      PatchIsExact(w.table, w.table[id], FIELDS, patch, f);
      var w1, changed := UpdateIsPatchThenFinish(w, id, patch, version, domain, env);
      FinishUpdateSites(w1, id, changed, version, domain, env);
    }
  }

  lemma FinishIsRefusedExactlyWhen(w: World, id: MiniId, changed: set<Field>, version: Option<string>, domain: string, env: Env)
    requires id in w.table && ModsListed(w, env)
    ensures FinishUpdate(w, id, changed, version, domain, env).outcome == Refused <==>
            version.Some? && w.table[id].mcVersion != version.value && VersionRefused(w, id, version.value, env)
  {
  }

  /** An update is refused, and not failed, exactly for its fields or for a version that does not pass the checks. */
  lemma UpdateIsRefusedExactlyWhen(w: World, id: MiniId, patch: map<Field, string>, version: Option<string>, domain: string, env: Env)
    requires id in w.table && ModsListed(w, env)
    ensures Update(w, id, patch, version, domain, env).outcome == Refused <==>
            || FieldsRefused(w, id, patch)
            || (version.Some? && w.table[id].mcVersion != version.value && VersionRefused(w, id, version.value, env))
  {
    PatchIsRefusedExactlyWhen(w.table, w.table[id], FIELDS, patch);
    if PatchFields(w.table, w.table[id], FIELDS, patch).Some? {
      PatchKeepsRest(w.table, w.table[id], FIELDS, patch);
      var w1, changed := UpdateIsPatchThenFinish(w, id, patch, version, domain, env);
      FinishIsRefusedExactlyWhen(w1, id, changed, version, domain, env);
    }
  }

  /** The patch gives the field another value than the row has. */
  predicate GivesNew(w: World, id: MiniId, patch: map<Field, string>, f: Field)
    requires id in w.table
  {
    f in patch && !(f in w.table[id].attrs && w.table[id].attrs[f] == patch[f])
  }

  lemma ChangedFields(w: World, id: MiniId, patch: map<Field, string>)
    requires id in w.table && PatchFields(w.table, w.table[id], FIELDS, patch).Some?
    ensures PatchFields(w.table, w.table[id], FIELDS, patch).value.1 * {Subdomain, AllowBedrock} != {} <==>
            GivesNew(w, id, patch, Subdomain) || GivesNew(w, id, patch, AllowBedrock)
  {
    AllFieldsAreSet(Subdomain);
    AllFieldsAreSet(AllowBedrock);
    PatchIsExact(w.table, w.table[id], FIELDS, patch, Subdomain);
    PatchIsExact(w.table, w.table[id], FIELDS, patch, AllowBedrock);
    var changed := PatchFields(w.table, w.table[id], FIELDS, patch).value.1;
    assert Subdomain in changed ==> Subdomain in changed * {Subdomain, AllowBedrock};
    assert AllowBedrock in changed ==> AllowBedrock in changed * {Subdomain, AllowBedrock};
  }

  /** An update that returns writes the routes of the new table exactly when it gives a new subdomain or a new setting
      for Bedrock players; no other update touches them. */
  lemma UpdateWritesRoutesExactlyWhen(w: World, id: MiniId, patch: map<Field, string>, version: Option<string>, domain: string, env: Env)
    requires id in w.table && ModsListed(w, env)
    ensures var done := Update(w, id, patch, version, domain, env);
            done.world.routes ==
            if done.outcome == Returned && (GivesNew(w, id, patch, Subdomain) || GivesNew(w, id, patch, AllowBedrock))
            then GenerateRoutes(SitesOf(done.world.table, env.order), domain) else w.routes
  {
    if PatchFields(w.table, w.table[id], FIELDS, patch).Some? {
      ChangedFields(w, id, patch);
      var w1, changed := UpdateIsPatchThenFinish(w, id, patch, version, domain, env);
      FinishUpdateSites(w1, id, changed, version, domain, env);
    }
  }

  /* ---- routes ---- */

  /** With distinct subdomains, the routes written lead from each miniverse's own subdomain to its own server; a
      missing subdomain is written as "None". */
  lemma RoutesByAttributes(w: World, domain: string, id: MiniId)
    requires RoutesCurrent(w, domain) && DistinctSubs(w.table) && id in w.table
    ensures var sub := if Subdomain in w.table[id].attrs then w.table[id].attrs[Subdomain] else "None";
            var host := sub + "." + domain;
            host in w.routes && w.routes[host] == "miniverse-" + id + ":25565"
  {
    CurrentRoutesLeadHome(w, domain);
  }
}
