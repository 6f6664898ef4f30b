/** Creating, starting, stopping, updating and deleting miniverses: rows, containers, controllers, tasks, routes. */
module Lifecycle {
  import opened Text
  import opened VersionOrder
  import opened Routes
  import Mods

  type MiniId = string

  /** The fields an update may set. */
  datatype Field = NameField | Description | Subdomain | JavaVersion | AllowBedrock | OnlineMode

  datatype ServerType = Vanilla | Paper | Fabric | Forge | NeoForge

  /** A row. An attribute that is None is missing from `attrs`. */
  datatype Mini = Mini(attrs: map<Field, string>, kind: ServerType, mcVersion: string,
                       containerId: Option<nat>, started: bool)

  /** A container, kept under the miniverse its name is made of; stopping one removes it. */
  datatype Container = Container(cid: nat, running: bool)

  /** The websocket controller holds its connect task; the router controller has none. */
  datatype Controller = WebSocket(task: Option<nat>) | Router

  /** `tasks` are the live connect tasks, each with the miniverse it connects to. */
  datatype World = World(table: map<MiniId, Mini>, containers: map<MiniId, Container>,
                         controllers: map<MiniId, Controller>, tasks: map<nat, MiniId>,
                         routes: map<string, string>, mods: Mods.State)

  /** What the surroundings contribute to a request: the version comparison on the current listing, the mod platform's
      answers, the order in which queries return mods and miniverses, and the next container and task. */
  datatype Env = Env(compare: (string, string) -> Comparison, list: Mods.Listing, details: Mods.Details, modList: seq<Mods.ModId>,
                     order: seq<MiniId>, newCid: nat, newTask: nat)

  datatype Outcome = Returned | Refused | Failed

  datatype Done = Done(world: World, outcome: Outcome)

  /* ---- controllers ---- */

  /** A task is started only where there is none. */
  function StartController(w: World, id: MiniId, newTask: nat): World
    requires id in w.controllers
  {
    if w.controllers[id] == WebSocket(None) then
      w.(controllers := w.controllers[id := WebSocket(Some(newTask))], tasks := w.tasks[newTask := id])
    else w
  }

  function StopController(w: World, id: MiniId): World
    requires id in w.controllers
  {
    match w.controllers[id]
    case WebSocket(Some(t)) => w.(controllers := w.controllers[id := WebSocket(None)], tasks := w.tasks - {t})
    case _ => w
  }

  /** The controller for a new miniverse; None where comparing the versions raises. */
  function NewController(compare: (string, string) -> Comparison, mcVersion: string): Option<Controller> {
    match compare(mcVersion, "1.21.9")
    case Raised => None
    case Ordered(order) => Some(if order == 1 then WebSocket(None) else Router)
    case Incomparable => Some(Router)
  }

  function AddMiniverse(w: World, id: MiniId, mcVersion: string, env: Env): Option<World> {
    if id in w.controllers then Some(StartController(w, id, env.newTask))
    else
      match NewController(env.compare, mcVersion)
      case None => None
      case Some(c) => Some(w.(controllers := w.controllers[id := c]))
  }

  function RemoveMiniverse(w: World, id: MiniId): World {
    if id in w.controllers then
      var stopped := StopController(w, id);
      stopped.(controllers := stopped.controllers - {id})
    else w
  }

  /* ---- containers ---- */

  /** The container with this id is gone, if there is one. */
  function RemoveContainer(containers: map<MiniId, Container>, cid: nat): map<MiniId, Container> {
    map n | n in containers && containers[n].cid != cid :: containers[n]
  }

  function Start(w: World, id: MiniId, env: Env): Done {
    if id !in w.table then Done(w, Failed)
    else
      var row := w.table[id].(started := true);
      if id in w.containers then
        var c := w.containers[id];
        Done(w.(table := w.table[id := row.(containerId := Some(c.cid))],
                containers := w.containers[id := c.(running := true)]), Returned)
      else
        var w1 := w.(table := w.table[id := row.(containerId := Some(env.newCid))],
                     containers := w.containers[id := Container(env.newCid, true)]);
        if id !in w.controllers then Done(w1, Failed) else Done(StartController(w1, id, env.newTask), Returned)
  }

  /** Only a stored container id makes a container stop; one found by its name is not stopped. */
  function StopContainer(w: World, id: MiniId): World
    requires id in w.table
  {
    match w.table[id].containerId
    case Some(cid) => w.(containers := RemoveContainer(w.containers, cid))
    case None => w
  }

  function Stop(w: World, id: MiniId): Done {
    if id !in w.table then Done(w, Failed)
    else
      var w1 := StopContainer(w, id);
      if id !in w.controllers then Done(w1, Failed)
      else
        var w2 := StopController(w1, id);
        Done(w2.(table := w2.table[id := w2.table[id].(started := false, containerId := None)]), Returned)
  }

  function Restart(w: World, id: MiniId, env: Env): Done {
    var stopped := Stop(w, id);
    if stopped.outcome != Returned then stopped else Start(stopped.world, id, env)
  }

  /* ---- routes ---- */

  function SubdomainOf(table: map<MiniId, Mini>, id: MiniId): string {
    if id in table && Subdomain in table[id].attrs then table[id].attrs[Subdomain] else "None"
  }

  function SitesOf(table: map<MiniId, Mini>, order: seq<MiniId>): seq<Site> {
    seq(|order|, i requires 0 <= i < |order| => Site(order[i], SubdomainOf(table, order[i])))
  }

  function WriteRoutes(w: World, domain: string, env: Env): World {
    w.(routes := GenerateRoutes(SitesOf(w.table, env.order), domain))
  }

  /* ---- creating and deleting ---- */

  /** The row is committed first; a version that cannot be compared raises after that. */
  function Create(w: World, id: MiniId, attrs: map<Field, string>, kind: ServerType, mcVersion: string, domain: string, env: Env): Done {
    var w1 := w.(table := w.table[id := Mini(attrs, kind, mcVersion, None, false)]);
    match AddMiniverse(w1, id, mcVersion, env)
    case None => Done(w1, Failed)
    case Some(w2) =>
      var started := Start(w2, id, env);
      if started.outcome != Returned then started else Done(WriteRoutes(started.world, domain, env), Returned)
  }

  /** The mods' rows go with the miniverse's row, their files with its folder. */
  function DropMods(s: Mods.State, id: MiniId): Mods.State {
    Mods.State(map k | k in s.rows && s.rows[k].miniverse != id :: s.rows[k],
               map f | f in s.files && f.0 != id :: s.files[f])
  }

  function Delete(w: World, id: MiniId, domain: string, env: Env): Done {
    if id !in w.table then Done(w, Failed)
    else
      var w1 := RemoveMiniverse(w, id);
      var w2 := StopContainer(w1, id);
      var w3 := w2.(table := w2.table - {id}, mods := DropMods(w2.mods, id));
      Done(WriteRoutes(w3, domain, env), Returned)
  }

  /* ---- updating ---- */

  function GetAttr(m: Mini, f: Field): Option<string> {
    if f in m.attrs then Some(m.attrs[f]) else None
  }

  predicate Taken(table: map<MiniId, Mini>, f: Field, value: string) {
    exists id | id in table :: GetAttr(table[id], f) == Some(value)
  }

  /** The row with the fields set, and the fields that changed; None when a name or subdomain is taken. */
  function PatchFields(table: map<MiniId, Mini>, row: Mini, fields: seq<Field>, patch: map<Field, string>): Option<(Mini, set<Field>)> {
    if fields == [] then Some((row, {}))
    else
      var f := fields[|fields| - 1];
      match PatchFields(table, row, fields[..|fields| - 1], patch)
      case None => None
      case Some((r, changed)) =>
        if f !in patch || GetAttr(r, f) == Some(patch[f]) then Some((r, changed))
        else if f in {NameField, Subdomain} && Taken(table, f, patch[f]) then None
        else Some((r.(attrs := r.attrs[f := patch[f]]), changed + {f}))
  }

  const FIELDS: seq<Field> := [NameField, Description, Subdomain, JavaVersion, AllowBedrock, OnlineMode]

  predicate HasMods(kind: ServerType) {
    kind == Forge || kind == NeoForge || kind == Fabric
  }

  /** The mods query returned rows. */
  predicate ModsListed(w: World, env: Env) {
    forall i | 0 <= i < |env.modList| :: env.modList[i] in w.mods.rows
  }

  predicate Blocked(info: Mods.UpdateInfo) {
    info.status == Mods.Failed || info.status == Mods.NoCompatible
  }

  predicate SomeBlocked(updates: map<Mods.ModId, Mods.UpdateInfo>) {
    exists k | k in updates :: Blocked(updates[k])
  }

  function ModUpdates(w: World, env: Env, version: string): map<Mods.ModId, Mods.UpdateInfo>
    requires ModsListed(w, env)
  {
    Mods.UpdatesFor(w.mods.rows, env.modList, env.list, version)
  }

  lemma UpdatesUsable(w: World, env: Env, version: string)
    requires ModsListed(w, env)
    ensures forall i | 0 <= i < |env.modList| ::
              env.modList[i] in ModUpdates(w, env, version)
              && (ModUpdates(w, env, version)[env.modList[i]].status == Mods.Available ==>
                    ModUpdates(w, env, version)[env.modList[i]].versions != [])
  {
    forall i | 0 <= i < |env.modList| {
      Mods.UpdateIsNewestEligible(env.list, w.mods.rows[env.modList[i]].projectId, w.mods.rows[env.modList[i]].versionId, version);
    }
  }

  /** Whether the checks before a game version update refuse it. */
  predicate VersionRefused(w: World, id: MiniId, version: string, env: Env)
    requires id in w.table && ModsListed(w, env)
  {
    var order := env.compare(w.table[id].mcVersion, version);
    || w.table[id].mcVersion == version || !order.Ordered? || order.order > 0
    || (HasMods(w.table[id].kind) && SomeBlocked(ModUpdates(w, env, version)))
  }

  function UpgradedMods(w: World, id: MiniId, version: string, env: Env): Mods.Outcome
    requires id in w.table && ModsListed(w, env)
  {
    if !HasMods(w.table[id].kind) then Mods.Outcome(w.mods, true)
    else
      UpdatesUsable(w, env, version);
      Mods.UpgradeAll(w.mods, env.modList, ModUpdates(w, env, version), env.details)
  }

  /** After the checks: the mods, then a stop, the new version, and a start. */
  function ApplyVersion(w: World, id: MiniId, version: string, env: Env): Done
    requires id in w.table && ModsListed(w, env)
  {
    var upgraded := UpgradedMods(w, id, version, env);
    var w1 := w.(mods := upgraded.state);
    if !upgraded.ok then Done(w1, Failed)
    else
      var stopped := Stop(w1, id);
      if stopped.outcome != Returned then stopped
      else
        var w2 := stopped.world;
        Start(w2.(table := w2.table[id := w2.table[id].(mcVersion := version)]), id, env)
  }

  function UpdateVersion(w: World, id: MiniId, version: string, env: Env): Done
    requires id in w.table && ModsListed(w, env)
  {
    if VersionRefused(w, id, version, env) then Done(w, Refused) else ApplyVersion(w, id, version, env)
  }

  /** The part of an update after the fields are committed; routes are written only when it gets that far. */
  function FinishUpdate(w: World, id: MiniId, changed: set<Field>, version: Option<string>, domain: string, env: Env): Done
    requires id in w.table && ModsListed(w, env)
  {
    var upgraded := if version.Some? && w.table[id].mcVersion != version.value then UpdateVersion(w, id, version.value, env)
                    else Done(w, Returned);
    if upgraded.outcome == Returned && changed * {Subdomain, AllowBedrock} != {}
    then Done(WriteRoutes(upgraded.world, domain, env), Returned)
    else upgraded
  }

  function Update(w: World, id: MiniId, patch: map<Field, string>, version: Option<string>, domain: string, env: Env): Done
    requires ModsListed(w, env)
  {
    if id !in w.table then Done(w, Failed)
    else
      match PatchFields(w.table, w.table[id], FIELDS, patch)
      case None => Done(w, Refused)
      case Some((row, changed)) =>
        FinishUpdate(w.(table := w.table[id := row]), id, changed, version, domain, env)
  }

  /* ---- the service ---- */

  class MiniverseService {
    const domain: string
    const mods: Mods.ModsService
    var table: map<MiniId, Mini>
    var containers: map<MiniId, Container>
    var controllers: map<MiniId, Controller>
    var tasks: map<nat, MiniId>
    var routes: map<string, string>

    constructor (domain: string, mods: Mods.ModsService)
      ensures this.domain == domain && this.mods == mods
      ensures View() == World(map[], map[], map[], map[], map[], mods.View())
    {
      this.domain, this.mods := domain, mods;
      table, containers, controllers, tasks, routes := map[], map[], map[], map[], map[];
    }

    function View(): World
      reads this, mods
    {
      World(table, containers, controllers, tasks, routes, mods.View())
    }

    method StartTask(id: MiniId, newTask: nat)
      requires id in controllers
      modifies this
      ensures View() == StartController(old(View()), id, newTask)
    {
      if controllers[id].WebSocket? {
        if controllers[id].task.None? {
          tasks := tasks[newTask := id];
          controllers := controllers[id := WebSocket(Some(newTask))];
        }
      }
    }

    method StopTask(id: MiniId)
      requires id in controllers
      modifies this
      ensures View() == StopController(old(View()), id)
    {
      if controllers[id].WebSocket? {
        if controllers[id].task.Some? {
          tasks := tasks - {controllers[id].task.value};
          controllers := controllers[id := WebSocket(None)];
        }
      }
    }

    method AddController(id: MiniId, mcVersion: string, env: Env) returns (added: bool)
      modifies this
      ensures added <==> AddMiniverse(old(View()), id, mcVersion, env).Some?
      ensures View() == if added then AddMiniverse(old(View()), id, mcVersion, env).value else old(View())
    {
      if id in controllers {
        StartTask(id, env.newTask);
        return true;
      }
      var order := env.compare(mcVersion, "1.21.9");
      if order == Raised {
        return false;
      }
      var control := if order == Ordered(1) then WebSocket(None) else Router;
      controllers := controllers[id := control];
      return true;
    }

    method RemoveController(id: MiniId)
      modifies this
      ensures View() == RemoveMiniverse(old(View()), id)
    {
      if id in controllers {
        StopTask(id);
        controllers := controllers - {id};
      }
    }

    method StartMiniverse(id: MiniId, env: Env) returns (outcome: Outcome)
      modifies this
      ensures Done(View(), outcome) == Start(old(View()), id, env)
    {
      if id !in table {
        return Failed;
      }
      table := table[id := table[id].(started := true)];
      if id in containers {
        var existing := containers[id];
        table := table[id := table[id].(containerId := Some(existing.cid))];
        containers := containers[id := existing.(running := true)];
        assert table == old(table)[id := old(table)[id].(started := true, containerId := Some(existing.cid))];
        return Returned;
      }
      containers := containers[id := Container(env.newCid, false)];
      table := table[id := table[id].(containerId := Some(env.newCid))];
      containers := containers[id := Container(env.newCid, true)];
      assert containers == old(containers)[id := Container(env.newCid, true)];
      assert table == old(table)[id := old(table)[id].(started := true, containerId := Some(env.newCid))];
      if id !in controllers {
        return Failed;
      }
      StartTask(id, env.newTask);
      return Returned;
    }

    method StopMiniverseContainer(id: MiniId)
      requires id in table
      modifies this`containers
      ensures View() == StopContainer(old(View()), id)
    {
      var containerId := table[id].containerId;
      if containerId.None? {
        if id in containers {
          containerId := Some(containers[id].cid);
        }
      }
      if table[id].containerId.Some? {
        containers := RemoveContainer(containers, containerId.value);
      }
    }

    method StopMiniverse(id: MiniId) returns (outcome: Outcome)
      modifies this
      ensures Done(View(), outcome) == Stop(old(View()), id)
    {
      if id !in table {
        return Failed;
      }
      StopMiniverseContainer(id);
      if id !in controllers {
        return Failed;
      }
      StopTask(id);
      table := table[id := table[id].(started := false, containerId := None)];
      return Returned;
    }

    method RestartMiniverse(id: MiniId, env: Env) returns (outcome: Outcome)
      modifies this
      ensures Done(View(), outcome) == Restart(old(View()), id, env)
      ensures outcome == Returned ==> id in table && table[id].started && id in containers && containers[id].running
    {
      outcome := StopMiniverse(id);
      if outcome == Returned {
        outcome := StartMiniverse(id, env);
      }
    }

    method UpdateProxyConfig(env: Env)
      modifies this`routes
      ensures View() == WriteRoutes(old(View()), domain, env)
    {
      routes := GenerateRoutes(SitesOf(table, env.order), domain);
    }

    method CreateMiniverse(id: MiniId, attrs: map<Field, string>, kind: ServerType, mcVersion: string, env: Env)
      returns (outcome: Outcome)
      modifies this
      ensures Done(View(), outcome) == Create(old(View()), id, attrs, kind, mcVersion, domain, env)
    {
      table := table[id := Mini(attrs, kind, mcVersion, None, false)];
      var added := AddController(id, mcVersion, env);
      if !added {
        return Failed;
      }
      outcome := StartMiniverse(id, env);
      if outcome == Returned {
        UpdateProxyConfig(env);
      }
    }

    /** The rows and files of the miniverse's mods go with it. */
    method DropModData(id: MiniId)
      modifies mods
      ensures mods.View() == DropMods(old(mods.View()), id)
    {
      mods.rows := map k | k in mods.rows && mods.rows[k].miniverse != id :: mods.rows[k];
      mods.files := map f | f in mods.files && f.0 != id :: mods.files[f];
    }

    method DeleteMiniverse(id: MiniId, env: Env) returns (outcome: Outcome)
      modifies this, mods
      ensures Done(View(), outcome) == Delete(old(View()), id, domain, env)
    {
      if id !in table {
        return Failed;
      }
      RemoveController(id);
      if table[id].containerId.Some? {
        containers := RemoveContainer(containers, table[id].containerId.value);
      }
      DropModData(id);
      table := table - {id};
      UpdateProxyConfig(env);
      return Returned;
    }

    /** The part after the checks; `updates` is what was listed for the mods. */
    method ApplyGameVersion(id: MiniId, version: string, updates: map<Mods.ModId, Mods.UpdateInfo>, env: Env) returns (outcome: Outcome)
      requires id in table && ModsListed(View(), env)
      requires HasMods(table[id].kind) ==> updates == ModUpdates(View(), env, version)
      modifies this, mods
      ensures Done(View(), outcome) == ApplyVersion(old(View()), id, version, env)
    {
      if HasMods(table[id].kind) {
        UpdatesUsable(View(), env, version);
        var upgraded := mods.UpgradeMods(env.modList, updates, env.details);
        if !upgraded {
          return Failed;
        }
      }
      outcome := StopMiniverse(id);
      if outcome != Returned {
        return;
      }
      table := table[id := table[id].(mcVersion := version)];
      outcome := StartMiniverse(id, env);
    }

    method UpdateGameVersion(id: MiniId, version: string, env: Env) returns (outcome: Outcome)
      requires id in table && ModsListed(View(), env)
      modifies this, mods
      ensures Done(View(), outcome) == UpdateVersion(old(View()), id, version, env)
    {
      if table[id].mcVersion == version {
        return Refused;
      }
      var order := env.compare(table[id].mcVersion, version);
      if !order.Ordered? || order.order > 0 {
        return Refused;
      }
      var updates := map[];
      if HasMods(table[id].kind) {
        updates := Mods.ListPossibleModUpdates(mods.rows, env.modList, env.list, version);
        var blocked := exists k | k in updates :: Blocked(updates[k]);
        if blocked {
          return Refused;
        }
      }
      outcome := ApplyGameVersion(id, version, updates, env);
    }

    method UpdateMiniverse(id: MiniId, patch: map<Field, string>, version: Option<string>, env: Env) returns (outcome: Outcome)
      requires ModsListed(View(), env)
      modifies this, mods
      ensures Done(View(), outcome) == Update(old(View()), id, patch, version, domain, env)
    {
      if id !in table {
        return Failed;
      }
      var row := table[id];
      var changed: set<Field> := {};
      for i := 0 to |FIELDS|
        invariant PatchFields(table, table[id], FIELDS[..i], patch) == Some((row, changed))
        invariant row.mcVersion == table[id].mcVersion
        invariant forall j | 0 <= j < i :: FIELDS[j] in patch ==> GetAttr(row, FIELDS[j]) == Some(patch[FIELDS[j]])
      {
        var f := FIELDS[i];
        assert FIELDS[..i + 1][..i] == FIELDS[..i];
        if f in patch && GetAttr(row, f) != Some(patch[f]) {
          if f in {NameField, Subdomain} {
            var taken := Taken(table, f, patch[f]);
            if taken {
              TakenStops(table, table[id], i + 1, patch);
              return Refused;
            }
          }
          row := row.(attrs := row.attrs[f := patch[f]]);
          changed := changed + {f};
        }
      }
      assert FIELDS[..|FIELDS|] == FIELDS && FIELDS[3] == JavaVersion;
      var shouldRestart := JavaVersion in patch && GetAttr(row, JavaVersion) != Some(patch[JavaVersion]);
      table := table[id := row];
      if version.Some? && row.mcVersion != version.value {
        outcome := UpdateGameVersion(id, version.value, env);
        if outcome != Returned {
          return;
        }
      }
      assert !shouldRestart;
      if changed * {Subdomain, AllowBedrock} != {} {
        UpdateProxyConfig(env);
      }
      return Returned;
    }
  }

  lemma {:induction false} StoppedPatch(table: map<MiniId, Mini>, row: Mini, fields: seq<Field>, i: nat, patch: map<Field, string>)
    requires i <= |fields| && PatchFields(table, row, fields[..i], patch).None?
    ensures PatchFields(table, row, fields, patch).None?
    decreases |fields|
  {
    if i < |fields| {
      assert fields[..|fields| - 1][..i] == fields[..i];
      StoppedPatch(table, row, fields[..|fields| - 1], i, patch);
    } else {
      assert fields[..i] == fields;
    }
  }

  lemma TakenStops(table: map<MiniId, Mini>, row: Mini, i: nat, patch: map<Field, string>)
    requires i <= |FIELDS| && PatchFields(table, row, FIELDS[..i], patch).None?
    ensures PatchFields(table, row, FIELDS, patch).None?
  {
    StoppedPatch(table, row, FIELDS, i, patch);
  }
}
