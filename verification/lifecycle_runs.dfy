/** Whole runs of requests: agreement, routes, mods, and the direction of version updates. */
module LifecycleRuns {
  import opened Text
  import opened Versions
  import opened VersionOrder
  import opened Routes
  import opened Lifecycle
  import opened LifecycleSafety
  import Mods
  import ModsSafety

  /* ---- the routes file and the table ---- */

  /** A query's order: every miniverse once. */
  ghost predicate Enumerates(order: seq<MiniId>, ids: set<MiniId>) {
    && (forall i, j | 0 <= i < j < |order| :: order[i] != order[j])
    && (forall id :: id in ids <==> id in order)
  }

  /** The routes file is the route map of the table, listed in some order. */
  ghost predicate RoutesCurrent(w: World, domain: string) {
    exists order :: Enumerates(order, w.table.Keys) && w.routes == GenerateRoutes(SitesOf(w.table, order), domain)
  }

  ghost predicate SameSites(w: World, w': World) {
    w'.table.Keys == w.table.Keys && forall id :: SubdomainOf(w'.table, id) == SubdomainOf(w.table, id)
  }

  /** No attribute changes; so neither do the sites. */
  ghost predicate SameAttrs(w: World, w': World) {
    w'.table.Keys == w.table.Keys && forall id | id in w.table :: w'.table[id].attrs == w.table[id].attrs
  }

  lemma SameAttrsMeansSameSites(w: World, w': World)
    requires SameAttrs(w, w')
    ensures SameSites(w, w') && (HasSubs(w.table) ==> HasSubs(w'.table))
  {
  }

  lemma SameSitesKeepRoutes(w: World, w': World, domain: string)
    requires RoutesCurrent(w, domain) && SameSites(w, w') && w'.routes == w.routes
    ensures RoutesCurrent(w', domain)
  {
    var order :| Enumerates(order, w.table.Keys) && w.routes == GenerateRoutes(SitesOf(w.table, order), domain);
    assert SitesOf(w'.table, order) == SitesOf(w.table, order);
  }

  ghost predicate DistinctSubs(table: map<MiniId, Mini>) {
    forall a, b | a in table && b in table && a != b :: SubdomainOf(table, a) != SubdomainOf(table, b)
  }

  /** The subdomain column is never null. */
  predicate HasSubs(table: map<MiniId, Mini>) {
    forall id | id in table :: Subdomain in table[id].attrs
  }

  /** With distinct subdomains a current routes file has one entry for each miniverse, leading to it. */
  lemma CurrentRoutesLeadHome(w: World, domain: string)
    requires RoutesCurrent(w, domain) && DistinctSubs(w.table)
    ensures |w.routes| == |w.table.Keys|
    ensures forall id | id in w.table ::
              var host := Host(SubdomainOf(w.table, id), domain); host in w.routes && w.routes[host] == Backend(id)
  {
    var order :| Enumerates(order, w.table.Keys) && w.routes == GenerateRoutes(SitesOf(w.table, order), domain);
    var sites := SitesOf(w.table, order);
    OneRouteEach(sites, domain);
    OrderLength(order, w.table.Keys);
    forall id | id in w.table
      ensures var host := Host(SubdomainOf(w.table, id), domain); host in w.routes && w.routes[host] == Backend(id)
    {
      var i :| 0 <= i < |order| && order[i] == id;
      assert sites[i] == Site(id, SubdomainOf(w.table, id));
    }
  }

  lemma {:induction false} OrderLength(order: seq<MiniId>, ids: set<MiniId>)
    requires Enumerates(order, ids)
    ensures |order| == |ids|
  {
    if order == [] {
      assert ids == {};
    } else {
      var n := |order| - 1;
      assert order[n] in ids;
      assert forall i | 0 <= i < n :: order[..n][i] == order[i];
      OrderLength(order[..n], ids - {order[n]});
    }
  }

  /** Every host in a current routes file is some miniverse's, distinct subdomains or not. */
  lemma CurrentRoutesAreHosts(w: World, domain: string, host: string)
    requires RoutesCurrent(w, domain)
    ensures host in w.routes <==> exists id :: id in w.table && Host(SubdomainOf(w.table, id), domain) == host
  {
    var order :| Enumerates(order, w.table.Keys) && w.routes == GenerateRoutes(SitesOf(w.table, order), domain);
    var sites := SitesOf(w.table, order);
    RoutesAreTheSites(sites, domain, host);
    if id :| id in w.table && Host(SubdomainOf(w.table, id), domain) == host {
      var i :| 0 <= i < |order| && order[i] == id;
      assert Host(sites[i].subdomain, domain) == host;
    }
    if i :| 0 <= i < |sites| && Host(sites[i].subdomain, domain) == host {
      assert order[i] in w.table;
    }
  }

  /* ---- what requests do to sites, and to versions ---- */

  /** At most the miniverse's own row changes, and neither its attributes nor its version. */
  ghost predicate OwnRowOnly(w: World, w': World, id: MiniId) {
    && w'.routes == w.routes && w'.mods == w.mods
    && if id in w.table then
         exists row :: w'.table == w.table[id := row] && row.attrs == w.table[id].attrs && row.mcVersion == w.table[id].mcVersion
       else w'.table == w.table
  }

  lemma StartOwnRow(w: World, id: MiniId, env: Env)
    ensures OwnRowOnly(w, Start(w, id, env).world, id)
  {
    var w' := Start(w, id, env).world;
    if id in w.table {
      assert w'.table == w.table[id := w'.table[id]];
    }
  }

  lemma StopOwnRow(w: World, id: MiniId)
    ensures OwnRowOnly(w, Stop(w, id).world, id)
  {
    var w' := Stop(w, id).world;
    if id in w.table {
      assert w'.table == w.table[id := w'.table[id]];
    }
  }

  lemma StartSites(w: World, id: MiniId, env: Env)
    ensures SameAttrs(w, Start(w, id, env).world) && Start(w, id, env).world.routes == w.routes
    ensures Start(w, id, env).world.mods == w.mods
    ensures id in w.table ==> Start(w, id, env).world.table[id].mcVersion == w.table[id].mcVersion
    ensures forall k | k in w.table && k != id :: Start(w, id, env).world.table[k] == w.table[k]
  {
    StartOwnRow(w, id, env);
  }

  lemma StopSites(w: World, id: MiniId)
    ensures SameAttrs(w, Stop(w, id).world) && Stop(w, id).world.routes == w.routes
    ensures Stop(w, id).world.mods == w.mods
    ensures id in w.table ==> Stop(w, id).world.table[id].mcVersion == w.table[id].mcVersion
    ensures forall k | k in w.table && k != id :: Stop(w, id).world.table[k] == w.table[k]
  {
    StopOwnRow(w, id);
  }

  lemma ApplyVersionSites(w: World, id: MiniId, version: string, env: Env)
    requires id in w.table && ModsListed(w, env)
    ensures var done := ApplyVersion(w, id, version, env);
            && SameAttrs(w, done.world) && done.world.routes == w.routes
            && (done.outcome == Returned ==> done.world.table[id].mcVersion == version && UpgradedMods(w, id, version, env).ok)
            && done.world.mods == UpgradedMods(w, id, version, env).state
            && forall k | k in w.table && k != id :: done.world.table[k] == w.table[k]
  {
    var w1 := w.(mods := UpgradedMods(w, id, version, env).state);
    StopSites(w1, id);
    var stopped := Stop(w1, id);
    if stopped.outcome == Returned {
      var w2 := stopped.world;
      StartSites(w2.(table := w2.table[id := w2.table[id].(mcVersion := version)]), id, env);
    }
  }

  /** A refused version update changes nothing; a refused update of fields and version changes at most the fields,
      and neither mods nor containers, controllers, tasks or routes. */
  lemma RefusedUpdateChangesNothing(w: World, id: MiniId, patch: map<Field, string>, version: Option<string>, domain: string, env: Env)
    requires id in w.table && ModsListed(w, env)
    requires Update(w, id, patch, version, domain, env).outcome == Refused
    ensures var w' := Update(w, id, patch, version, domain, env).world;
            && w'.mods == w.mods && w'.containers == w.containers && w'.controllers == w.controllers
            && w'.tasks == w.tasks && w'.routes == w.routes
            && w'.table.Keys == w.table.Keys && w'.table[id].mcVersion == w.table[id].mcVersion
            && w'.table[id].started == w.table[id].started && w'.table[id].containerId == w.table[id].containerId
            && forall k | k in w.table && k != id :: w'.table[k] == w.table[k]
  {
    var patched := PatchFields(w.table, w.table[id], FIELDS, patch);
    if patched.Some? {
      PatchKeepsRest(w.table, w.table[id], FIELDS, patch);
      var w1 := w.(table := w.table[id := patched.value.0]);
      ApplyVersionOutcome(w1, id, if version.Some? then version.value else "", env);
    }
  }

  lemma ApplyVersionOutcome(w: World, id: MiniId, version: string, env: Env)
    requires id in w.table && ModsListed(w, env)
    ensures ApplyVersion(w, id, version, env).outcome != Refused
  {
  }

  /** An update without a new version restarts nothing, even when it changes the Java version. */
  lemma UpdateAloneRestartsNothing(w: World, id: MiniId, patch: map<Field, string>, domain: string, env: Env)
    requires id in w.table && ModsListed(w, env)
    ensures var w' := Update(w, id, patch, None, domain, env).world;
            && w'.containers == w.containers && w'.tasks == w.tasks && w'.controllers == w.controllers
            && w'.table[id].containerId == w.table[id].containerId && w'.table[id].started == w.table[id].started
  {
    if PatchFields(w.table, w.table[id], FIELDS, patch).Some? {
      PatchKeepsRest(w.table, w.table[id], FIELDS, patch);
    }
  }

  /* ---- subdomains and routes through an update ---- */

  lemma UpdateVersionSites(w: World, id: MiniId, version: string, env: Env)
    requires id in w.table && ModsListed(w, env)
    ensures SameAttrs(w, UpdateVersion(w, id, version, env).world) && UpdateVersion(w, id, version, env).world.routes == w.routes
  {
    ApplyVersionSites(w, id, version, env);
  }

  lemma FinishUpdateSites(w: World, id: MiniId, changed: set<Field>, version: Option<string>, domain: string, env: Env)
    requires id in w.table && ModsListed(w, env)
    ensures var done := FinishUpdate(w, id, changed, version, domain, env);
            && SameAttrs(w, done.world)
            && (done.outcome != Returned || changed * {Subdomain, AllowBedrock} == {} ==> done.world.routes == w.routes)
            && (done.outcome == Returned && changed * {Subdomain, AllowBedrock} != {} ==>
                  done.world.routes == GenerateRoutes(SitesOf(done.world.table, env.order), domain))
  {
    if version.Some? {
      UpdateVersionSites(w, id, version.value, env);
    }
  }

  /** The row's subdomain after the fields are set. */
  lemma PatchedSubdomain(w: World, id: MiniId, patch: map<Field, string>)
    requires id in w.table && HasSubs(w.table) && PatchFields(w.table, w.table[id], FIELDS, patch).Some?
    ensures var (row, changed) := PatchFields(w.table, w.table[id], FIELDS, patch).value;
            var table' := w.table[id := row];
            && HasSubs(table')
            && (forall k | k != id :: SubdomainOf(table', k) == SubdomainOf(w.table, k))
            && (Subdomain !in changed ==> SubdomainOf(table', id) == SubdomainOf(w.table, id))
            && (Subdomain in changed ==> forall k | k in w.table :: SubdomainOf(w.table, k) != SubdomainOf(table', id))
  {
    PatchKeepsRest(w.table, w.table[id], FIELDS, patch);
    var (row, changed) := PatchFields(w.table, w.table[id], FIELDS, patch).value;
    assert GetAttr(w.table[id], Subdomain).Some?;
    assert GetAttr(row, Subdomain).Some?;
    if Subdomain in changed {
      forall k | k in w.table ensures GetAttr(w.table[k], Subdomain) != Some(patch[Subdomain]) {
      }
    }
  }

  lemma PatchKeepsDistinctSubs(w: World, id: MiniId, patch: map<Field, string>)
    requires id in w.table && HasSubs(w.table) && DistinctSubs(w.table)
    requires PatchFields(w.table, w.table[id], FIELDS, patch).Some?
    ensures DistinctSubs(w.table[id := PatchFields(w.table, w.table[id], FIELDS, patch).value.0])
  {
    PatchedSubdomain(w, id, patch);
  }

  lemma SameSitesStayDistinct(w: World, w': World)
    requires SameSites(w, w') && DistinctSubs(w.table)
    ensures DistinctSubs(w'.table)
  {
  }

  /** An update is the committed fields followed by the rest. */
  lemma UpdateIsPatchThenFinish(w: World, id: MiniId, patch: map<Field, string>, version: Option<string>, domain: string, env: Env)
    returns (w1: World, changed: set<Field>)
    requires id in w.table && ModsListed(w, env) && PatchFields(w.table, w.table[id], FIELDS, patch).Some?
    ensures w1 == w.(table := w.table[id := PatchFields(w.table, w.table[id], FIELDS, patch).value.0])
    ensures changed == PatchFields(w.table, w.table[id], FIELDS, patch).value.1
    ensures id in w1.table && ModsListed(w1, env)
    ensures Update(w, id, patch, version, domain, env) == FinishUpdate(w1, id, changed, version, domain, env)
  {
    w1 := w.(table := w.table[id := PatchFields(w.table, w.table[id], FIELDS, patch).value.0]);
    changed := PatchFields(w.table, w.table[id], FIELDS, patch).value.1;
  }

  /** An update keeps subdomains distinct, whatever becomes of it. */
  lemma UpdateKeepsDistinctSubs(w: World, id: MiniId, patch: map<Field, string>, version: Option<string>, domain: string, env: Env)
    requires id in w.table && ModsListed(w, env) && HasSubs(w.table) && DistinctSubs(w.table)
    ensures DistinctSubs(Update(w, id, patch, version, domain, env).world.table)
  {
    if PatchFields(w.table, w.table[id], FIELDS, patch).Some? {
      PatchKeepsDistinctSubs(w, id, patch);
      var w1, changed := UpdateIsPatchThenFinish(w, id, patch, version, domain, env);
      FinishUpdateSites(w1, id, changed, version, domain, env);
      SameAttrsMeansSameSites(w1, FinishUpdate(w1, id, changed, version, domain, env).world);
      SameSitesStayDistinct(w1, FinishUpdate(w1, id, changed, version, domain, env).world);
    }
  }

  /** The rest of an update, seen from before the fields were set. */
  lemma FinishKeepsRoutes(w: World, w1: World, id: MiniId, changed: set<Field>, version: Option<string>, domain: string, env: Env)
    requires id in w1.table && ModsListed(w1, env) && RoutesCurrent(w, domain) && w1.routes == w.routes
    requires w1.table.Keys == w.table.Keys && Enumerates(env.order, w.table.Keys)
    requires Subdomain !in changed ==> SameSites(w, w1)
    requires Subdomain in changed ==> forall k | k in w.table :: SubdomainOf(w.table, k) != SubdomainOf(w1.table, id)
    ensures var done := FinishUpdate(w1, id, changed, version, domain, env);
            RoutesCurrent(done.world, domain) <==> done.outcome == Returned || Subdomain !in changed
  {
    var done := FinishUpdate(w1, id, changed, version, domain, env);
    FinishUpdateSites(w1, id, changed, version, domain, env);
    SameAttrsMeansSameSites(w1, done.world);
    if done.outcome == Returned && changed * {Subdomain, AllowBedrock} != {} {
      assert RoutesCurrent(done.world, domain) by {
        assert Enumerates(env.order, done.world.table.Keys);
      }
    } else if Subdomain !in changed {
      SameSitesKeepRoutes(w, done.world, domain);
    } else {
      assert Subdomain in changed * {Subdomain, AllowBedrock};
      StaleRoutes(w, done.world, id, domain);
    }
  }

  lemma UpdateKeepsRoutes(w: World, id: MiniId, patch: map<Field, string>, version: Option<string>, domain: string, env: Env)
    requires id in w.table && ModsListed(w, env) && HasSubs(w.table) && RoutesCurrent(w, domain)
    requires Enumerates(env.order, w.table.Keys)
    ensures var done := Update(w, id, patch, version, domain, env);
            var patched := PatchFields(w.table, w.table[id], FIELDS, patch);
            RoutesCurrent(done.world, domain) <==>
            done.outcome == Returned || patched.None? || Subdomain !in patched.value.1
  {
    if PatchFields(w.table, w.table[id], FIELDS, patch).Some? {
      PatchedSubdomain(w, id, patch);
      var w1, changed := UpdateIsPatchThenFinish(w, id, patch, version, domain, env);
      FinishKeepsRoutes(w, w1, id, changed, version, domain, env);
    }
  }

  /** The update gives the miniverse another subdomain. */
  predicate NewSubdomain(w: World, id: MiniId, patch: map<Field, string>)
    requires id in w.table
  {
    Subdomain in patch && GetAttr(w.table[id], Subdomain) != Some(patch[Subdomain])
  }

  /** After an update the routes file is current exactly when no new subdomain was given, or a taken name or subdomain
      refused the fields, or the version part works: no new version, or one that passes the checks and whose mod
      updates can all be put in the folder. A version that is refused or fails after a new subdomain was committed
      leaves the old routes. */
  lemma UpdateKeepsRoutesExactlyWhen(w: World, id: MiniId, patch: map<Field, string>, version: Option<string>, domain: string, env: Env)
    requires Agrees(w) && FreshEnv(w, env) && HasSubs(w.table) && RoutesCurrent(w, domain)
    requires id in w.table && ModsListed(w, env) && Enumerates(env.order, w.table.Keys)
    ensures RoutesCurrent(Update(w, id, patch, version, domain, env).world, domain) <==>
            !NewSubdomain(w, id, patch) || FieldsRefused(w, id, patch) || VersionWorks(w, id, version, env)
  {
    UpdateReturnsExactlyWhen(w, id, patch, version, domain, env);
    UpdateKeepsRoutes(w, id, patch, version, domain, env);
    PatchSubdomainExactlyWhen(w, id, patch);
  }

  lemma PatchSubdomainExactlyWhen(w: World, id: MiniId, patch: map<Field, string>)
    requires id in w.table
    ensures var patched := PatchFields(w.table, w.table[id], FIELDS, patch);
            (patched.None? <==> FieldsRefused(w, id, patch))
            && (patched.Some? ==> (Subdomain in patched.value.1 <==> NewSubdomain(w, id, patch)))
  {
    PatchIsRefusedExactlyWhen(w.table, w.table[id], FIELDS, patch);
    if PatchFields(w.table, w.table[id], FIELDS, patch).Some? {
      assert FIELDS[2] == Subdomain;
      PatchIsExact(w.table, w.table[id], FIELDS, patch, Subdomain);
    }
  }

  /* ---- a version that is refused after a new subdomain was committed ---- */

  /** One stopped miniverse behind the router, with the routes written for it. */
  function OneMiniverse(version: string, domain: string): World {
    World(map["a" := Mini(map[Subdomain := "old"], Vanilla, version, None, false)], map[], map["a" := Router], map[],
          GenerateRoutes([Site("a", "old")], domain), Mods.State(map[], map[]))
  }

  function PlainEnv(listing: seq<Listed>): Env {
    Env((v, w) => CompareVersions(listing, v, w), (project, game) => None, version => Mods.Unavailable, [], ["a"], 0, 0)
  }

  lemma OneMiniverseIsHealthy(version: string, domain: string, listing: seq<Listed>)
    ensures var w, env := OneMiniverse(version, domain), PlainEnv(listing);
            && Agrees(w) && FreshEnv(w, env) && HasSubs(w.table) && RoutesCurrent(w, domain)
            && ModsListed(w, env) && Enumerates(env.order, w.table.Keys)
  {
    var w, env := OneMiniverse(version, domain), PlainEnv(listing);
    assert Fits(w, "a");
    assert SitesOf(w.table, ["a"]) == [Site("a", "old")];
    assert Enumerates(["a"], w.table.Keys) by {
      assert "a" in ["a"];
    }
  }

  lemma LowerVersionLeavesOldRoutes(high: string, low: string, domain: string, listing: seq<Listed>)
    requires ParseVersion(high).Some? && !OldSnapshotVersion(ParseVersion(high).value)
    requires ParseVersion(low).Some? && ParseVersion(low).value.kind == Release
    requires MainLess(ParseVersion(low).value, ParseVersion(high).value)
    ensures var w, env := OneMiniverse(high, domain), PlainEnv(listing);
            && RoutesCurrent(w, domain) && ModsListed(w, env)
            && !RoutesCurrent(Update(w, "a", map[Subdomain := "new"], Some(low), domain, env).world, domain)
  {
    var w, env, patch := OneMiniverse(high, domain), PlainEnv(listing), map[Subdomain := "new"];
    OneMiniverseIsHealthy(high, domain, listing);
    AgainstRelease(listing, high, low);
    assert env.compare(high, low) == Ordered(1);
    assert VersionRefused(w, "a", low, env);
    forall f | f in FIELDS ensures !Conflicts(w.table, w.table["a"], f, patch) {
    }
    UpdateKeepsRoutesExactlyWhen(w, "a", patch, Some(low), domain, env);
  }

  lemma LowerExample() returns (high: string, low: string)
    ensures high == ReleaseText(1, 20) && low == ReleaseText(1, 19)
    ensures ParseVersion(high).Some? && !OldSnapshotVersion(ParseVersion(high).value)
    ensures ParseVersion(low).Some? && ParseVersion(low).value.kind == Release
    ensures MainLess(ParseVersion(low).value, ParseVersion(high).value)
  {
    high, low := ReleaseText(1, 20), ReleaseText(1, 19);
    ReadRelease(1, 20);
    ReadRelease(1, 19);
  }

  /** Such an input: a miniverse of version 1.20 is given the free subdomain "new" together with version 1.19. */
  lemma RefusedVersionLeavesOldRoutes(domain: string) returns (w: World, patch: map<Field, string>, low: string, env: Env)
    ensures w == OneMiniverse(ReleaseText(1, 20), domain) && low == ReleaseText(1, 19)
    ensures patch == map[Subdomain := "new"] && ModsListed(w, env)
    ensures RoutesCurrent(w, domain) && !RoutesCurrent(Update(w, "a", patch, Some(low), domain, env).world, domain)
  {
    var high;
    high, low := LowerExample();
    w, patch, env := OneMiniverse(high, domain), map[Subdomain := "new"], PlainEnv([]);
    LowerVersionLeavesOldRoutes(high, low, domain, []);
  }

  /** A table with a subdomain nobody had before is not what the old routes describe. */
  lemma StaleRoutes(w: World, w': World, id: MiniId, domain: string)
    requires RoutesCurrent(w, domain) && w'.routes == w.routes && id in w'.table
    requires forall k | k in w.table :: SubdomainOf(w.table, k) != SubdomainOf(w'.table, id)
    ensures !RoutesCurrent(w', domain)
  {
    var host := Host(SubdomainOf(w'.table, id), domain);
    if RoutesCurrent(w', domain) {
      CurrentRoutesAreHosts(w', domain, host);
      CurrentRoutesAreHosts(w, domain, host);
      var k :| k in w.table && Host(SubdomainOf(w.table, k), domain) == host;
      HostInjective(SubdomainOf(w.table, k), SubdomainOf(w'.table, id), domain);
      assert false;
    }
  }

  /* ---- mods through a version update and a deletion ---- */

  lemma UpgradeKeepsModsSound(owner: ModsSafety.Owner, w: World, id: MiniId, version: string, env: Env)
    requires id in w.table && ModsListed(w, env) && ModsSafety.Sound(owner, w.mods) && UpgradedMods(w, id, version, env).ok
    requires ModsSafety.GenuineDetails(owner, env.details) && ModsSafety.GenuineListing(owner, env.list, env.details)
    ensures var mods' := UpgradedMods(w, id, version, env).state;
            && ModsSafety.Sound(owner, mods') && mods'.rows.Keys == w.mods.rows.Keys
            && forall k | k in w.mods.rows ::
                 || mods'.rows[k].versionId == w.mods.rows[k].versionId
                 || (env.details(mods'.rows[k].versionId).Found? && version in env.details(mods'.rows[k].versionId).version.gameVersions)
  {
    if HasMods(w.table[id].kind) {
      ModsSafety.UpgradeListsGame(owner, w.mods, env.modList, env.list, env.details, version);
    }
  }

  /** An accepted version update sets the version, and leaves each mod at a version that lists it or at the one the
      mod had. */
  lemma AcceptedUpdateMods(owner: ModsSafety.Owner, w: World, id: MiniId, version: string, env: Env)
    requires id in w.table && ModsListed(w, env) && ModsSafety.Sound(owner, w.mods)
    requires ModsSafety.GenuineDetails(owner, env.details) && ModsSafety.GenuineListing(owner, env.list, env.details)
    requires UpdateVersion(w, id, version, env).outcome == Returned
    ensures var w' := UpdateVersion(w, id, version, env).world;
            && w'.table[id].mcVersion == version && w'.mods.rows.Keys == w.mods.rows.Keys
            && forall k | k in w.mods.rows ::
                 || w'.mods.rows[k].versionId == w.mods.rows[k].versionId
                 || (env.details(w'.mods.rows[k].versionId).Found? && version in env.details(w'.mods.rows[k].versionId).version.gameVersions)
  {
    ApplyVersionSites(w, id, version, env);
    UpgradeKeepsModsSound(owner, w, id, version, env);
  }

  /** The mods query returned exactly the miniverse's mods. */
  ghost predicate ListsOwnMods(w: World, id: MiniId, env: Env) {
    forall k :: k in env.modList <==> k in w.mods.rows && w.mods.rows[k].miniverse == id
  }

  /** The row is at the newest of the versions considered for its project that list the game version or were installed. */
  ghost predicate AtNewest(list: Mods.Listing, before: Mods.ModRow, after: Mods.ModRow, game: string) {
    && after.miniverse == before.miniverse && after.projectId == before.projectId
    && Mods.Considered(list, before.projectId, game).Some?
    && exists v :: Mods.NewestEligible(v, Mods.Considered(list, before.projectId, game).value, game, before.versionId)
                   && after.versionId == v.id
  }

  /** An accepted version update takes each mod of the miniverse to its newest eligible version, and leaves the mods of
      other miniverses as they were. */
  lemma AcceptedUpdateTakesNewest(owner: ModsSafety.Owner, w: World, id: MiniId, version: string, env: Env)
    requires id in w.table && HasMods(w.table[id].kind) && ListsOwnMods(w, id, env) && ModsSafety.Sound(owner, w.mods)
    requires ModsSafety.GenuineDetails(owner, env.details) && ModsSafety.GenuineListing(owner, env.list, env.details)
    requires ModsListed(w, env) && UpdateVersion(w, id, version, env).outcome == Returned
    ensures var before, after := w.mods.rows, UpdateVersion(w, id, version, env).world.mods.rows;
            after.Keys == before.Keys
            && forall k | k in before ::
                 if before[k].miniverse == id then AtNewest(env.list, before[k], after[k], version) else after[k] == before[k]
  {
    ApplyVersionSites(w, id, version, env);
    ModsSafety.UpgradeListsGame(owner, w.mods, env.modList, env.list, env.details, version);
    var before, after := w.mods.rows, UpdateVersion(w, id, version, env).world.mods.rows;
    forall k | k in before && before[k].miniverse == id ensures AtNewest(env.list, before[k], after[k], version) {
      assert !Blocked(ModUpdates(w, env, version)[k]);
      OfferedIsNewest(env.list, before[k], after[k], version);
    }
  }

  lemma OfferedIsNewest(list: Mods.Listing, before: Mods.ModRow, after: Mods.ModRow, game: string)
    requires var info := Mods.UpdateFor(list, before.projectId, before.versionId, game);
             ModsSafety.AtOffered(before, after, info) && !Blocked(info)
    ensures AtNewest(list, before, after, game)
  {
    Mods.UpdateIsNewestEligible(list, before.projectId, before.versionId, game);
    var info, vs := Mods.UpdateFor(list, before.projectId, before.versionId, game), Mods.Considered(list, before.projectId, game);
    var v :| Mods.Offers(info, v, vs.value, game, before.versionId);
  }

  lemma DropKeepsModsSound(owner: ModsSafety.Owner, s: Mods.State, id: MiniId)
    requires ModsSafety.Sound(owner, s)
    ensures ModsSafety.Sound(owner, DropMods(s, id))
  {
    var s' := DropMods(s, id);
    forall k | k in s'.rows ensures ModsSafety.RowFits(owner, s', k) {
      assert ModsSafety.RowFits(owner, s, k);
    }
    forall k, other | k in s'.rows && other in s'.rows && k != other ensures ModsSafety.OtherProject(s', k, other) {
      assert ModsSafety.OtherProject(s, k, other);
    }
  }

  /* ---- runs ---- */

  datatype Request =
    | CreateOne(id: MiniId, attrs: map<Field, string>, kind: ServerType, version: string)
    | StartOne(id: MiniId)
    | StopOne(id: MiniId)
    | RestartOne(id: MiniId)
    | UpdateOne(id: MiniId, patch: map<Field, string>, newVersion: Option<string>)
    | DeleteOne(id: MiniId)

  function Handle(w: World, r: Request, domain: string, env: Env): Done
    requires ModsListed(w, env)
  {
    match r
    case CreateOne(id, attrs, kind, version) => Create(w, id, attrs, kind, version, domain, env)
    case StartOne(id) => Start(w, id, env)
    case StopOne(id) => Stop(w, id)
    case RestartOne(id) => Restart(w, id, env)
    case UpdateOne(id, patch, newVersion) => Update(w, id, patch, newVersion, domain, env)
    case DeleteOne(id) => Delete(w, id, domain, env)
  }

  /** The request is handled, however it ends. */
  ghost predicate LeadsTo(w: World, r: Request, w': World, domain: string, env: Env) {
    ModsListed(w, env) && Handle(w, r, domain, env).world == w'
  }

  /** The states before, between and after requests, whether they return, are refused or fail. */
  ghost predicate IsHistory(states: seq<World>, requests: seq<Request>, envs: seq<Env>, domain: string) {
    && |states| == |requests| + 1 && |envs| == |requests|
    && forall i | 0 <= i < |requests| :: LeadsTo(states[i], requests[i], states[i + 1], domain, envs[i])
  }

  /** The request is handled and returns; new ids are new, and queries list what is there. */
  ghost predicate HandledTo(w: World, r: Request, w': World, domain: string, env: Env) {
    && ModsListed(w, env) && FreshEnv(w, env) && Handle(w, r, domain, env) == Done(w', Returned)
    && Enumerates(env.order, w'.table.Keys)
    && (r.CreateOne? ==> r.id !in w.table && Subdomain in r.attrs)
  }

  /** What holds between requests. */
  ghost predicate Healthy(w: World, domain: string, owner: ModsSafety.Owner) {
    Agrees(w) && RoutesCurrent(w, domain) && HasSubs(w.table) && ModsSafety.Sound(owner, w.mods)
  }

  ghost predicate GenuineEnv(owner: ModsSafety.Owner, env: Env) {
    ModsSafety.GenuineDetails(owner, env.details) && ModsSafety.GenuineListing(owner, env.list, env.details)
  }

  lemma CreateTable(w: World, id: MiniId, attrs: map<Field, string>, kind: ServerType, version: string, domain: string, env: Env)
    requires Create(w, id, attrs, kind, version, domain, env).outcome == Returned
    ensures var w' := Create(w, id, attrs, kind, version, domain, env).world;
            && w'.mods == w.mods && w'.routes == GenerateRoutes(SitesOf(w'.table, env.order), domain)
            && w'.table.Keys == w.table.Keys + {id} && w'.table[id].attrs == attrs
            && forall k | k in w.table && k != id :: w'.table[k].attrs == w.table[k].attrs
  {
    var w1 := w.(table := w.table[id := Mini(attrs, kind, version, None, false)]);
    var w2 := AddMiniverse(w1, id, version, env).value;
    assert w2.table == w1.table && w2.mods == w.mods;
    StartSites(w2, id, env);
  }

  lemma WrittenRoutesAreCurrent(w: World, domain: string, env: Env)
    requires w.routes == GenerateRoutes(SitesOf(w.table, env.order), domain) && Enumerates(env.order, w.table.Keys)
    ensures RoutesCurrent(w, domain)
  {
  }

  lemma CreateIsHealthy(w: World, r: Request, w': World, domain: string, env: Env, owner: ModsSafety.Owner)
    requires Healthy(w, domain, owner) && r.CreateOne? && HandledTo(w, r, w', domain, env)
    ensures Healthy(w', domain, owner)
  {
    CreateTable(w, r.id, r.attrs, r.kind, r.version, domain, env);
    WrittenRoutesAreCurrent(w', domain, env);
    CreatedAgrees(w, r.id, r.attrs, r.kind, r.version, domain, env);
  }

  lemma CreatedAgrees(w: World, id: MiniId, attrs: map<Field, string>, kind: ServerType, version: string, domain: string, env: Env)
    requires Agrees(w) && FreshEnv(w, env) && id !in w.table
    ensures Create(w, id, attrs, kind, version, domain, env).outcome == Returned ==>
              Agrees(Create(w, id, attrs, kind, version, domain, env).world)
  {
    CreateKeepsAgreementExactlyWhen(w, id, attrs, kind, version, domain, env);
  }

  lemma DeleteIsHealthy(w: World, r: Request, w': World, domain: string, env: Env, owner: ModsSafety.Owner)
    requires Healthy(w, domain, owner) && r.DeleteOne? && HandledTo(w, r, w', domain, env)
    ensures Healthy(w', domain, owner)
  {
    DeleteKeepsAgreement(w, r.id, domain, env);
    DeleteEffect(w, r.id, domain, env);
    DropKeepsModsSound(owner, w.mods, r.id);
    WrittenRoutesAreCurrent(w', domain, env);
  }

  lemma UnchangedSitesAreHealthy(w: World, w': World, domain: string, owner: ModsSafety.Owner)
    requires Healthy(w, domain, owner) && Agrees(w') && SameAttrs(w, w') && w'.routes == w.routes && w'.mods == w.mods
    ensures Healthy(w', domain, owner)
  {
    SameAttrsMeansSameSites(w, w');
    SameSitesKeepRoutes(w, w', domain);
  }

  lemma StartIsHealthy(w: World, id: MiniId, domain: string, env: Env, owner: ModsSafety.Owner)
    requires Healthy(w, domain, owner) && id in w.table && FreshEnv(w, env)
    ensures Healthy(Start(w, id, env).world, domain, owner)
  {
    StartKeepsAgreement(w, id, env);
    StartSites(w, id, env);
    UnchangedSitesAreHealthy(w, Start(w, id, env).world, domain, owner);
  }

  lemma StopIsHealthy(w: World, id: MiniId, domain: string, owner: ModsSafety.Owner)
    requires Healthy(w, domain, owner) && id in w.table
    ensures Healthy(Stop(w, id).world, domain, owner)
  {
    StopKeepsAgreement(w, id);
    StopSites(w, id);
    UnchangedSitesAreHealthy(w, Stop(w, id).world, domain, owner);
  }

  lemma StartStopIsHealthy(w: World, r: Request, w': World, domain: string, env: Env, owner: ModsSafety.Owner)
    requires Healthy(w, domain, owner) && (r.StartOne? || r.StopOne? || r.RestartOne?) && HandledTo(w, r, w', domain, env)
    ensures Healthy(w', domain, owner)
  {
    match r
    case StartOne(id) =>
      StartIsHealthy(w, id, domain, env, owner);
    case StopOne(id) =>
      StopIsHealthy(w, id, domain, owner);
    case RestartOne(id) =>
      StopIsHealthy(w, id, domain, owner);
      FreshAfterStop(w, id, env);
      StopSites(w, id);
      StartIsHealthy(Stop(w, id).world, id, domain, env, owner);
  }

  /** The mods after an update that returned: as before, or upgraded with every step succeeding. */
  lemma UpdateMods(w: World, id: MiniId, patch: map<Field, string>, version: Option<string>, domain: string, env: Env, owner: ModsSafety.Owner)
    requires id in w.table && ModsListed(w, env) && ModsSafety.Sound(owner, w.mods) && GenuineEnv(owner, env)
    requires Update(w, id, patch, version, domain, env).outcome == Returned
    ensures ModsSafety.Sound(owner, Update(w, id, patch, version, domain, env).world.mods)
  {
    var w1, changed := UpdateIsPatchThenFinish(w, id, patch, version, domain, env);
    FinishMods(w1, id, changed, version, domain, env, owner);
  }

  lemma FinishMods(w: World, id: MiniId, changed: set<Field>, version: Option<string>, domain: string, env: Env, owner: ModsSafety.Owner)
    requires id in w.table && ModsListed(w, env) && ModsSafety.Sound(owner, w.mods) && GenuineEnv(owner, env)
    requires FinishUpdate(w, id, changed, version, domain, env).outcome == Returned
    ensures ModsSafety.Sound(owner, FinishUpdate(w, id, changed, version, domain, env).world.mods)
  {
    if version.Some? && w.table[id].mcVersion != version.value {
      ApplyVersionSites(w, id, version.value, env);
      UpgradeKeepsModsSound(owner, w, id, version.value, env);
    }
  }

  lemma UpdateKeepsSubs(w: World, id: MiniId, patch: map<Field, string>, version: Option<string>, domain: string, env: Env)
    requires id in w.table && ModsListed(w, env) && HasSubs(w.table)
    ensures HasSubs(Update(w, id, patch, version, domain, env).world.table)
    ensures Update(w, id, patch, version, domain, env).world.table.Keys == w.table.Keys
  {
    if PatchFields(w.table, w.table[id], FIELDS, patch).Some? {
      PatchedSubdomain(w, id, patch);
      var w1, changed := UpdateIsPatchThenFinish(w, id, patch, version, domain, env);
      FinishUpdateSites(w1, id, changed, version, domain, env);
      SameAttrsMeansSameSites(w1, FinishUpdate(w1, id, changed, version, domain, env).world);
    }
  }

  lemma UpdateIsHealthy(w: World, id: MiniId, patch: map<Field, string>, version: Option<string>, domain: string, env: Env, owner: ModsSafety.Owner)
    requires Healthy(w, domain, owner) && id in w.table && ModsListed(w, env) && FreshEnv(w, env) && GenuineEnv(owner, env)
    requires Enumerates(env.order, w.table.Keys) && Update(w, id, patch, version, domain, env).outcome == Returned
    ensures Healthy(Update(w, id, patch, version, domain, env).world, domain, owner)
  {
    UpdateKeepsAgreement(w, id, patch, version, domain, env);
    UpdateMods(w, id, patch, version, domain, env, owner);
    UpdateKeepsSubs(w, id, patch, version, domain, env);
    UpdateKeepsRoutes(w, id, patch, version, domain, env);
  }

  ghost predicate IsRun(states: seq<World>, requests: seq<Request>, envs: seq<Env>, domain: string, owner: ModsSafety.Owner) {
    && |states| == |requests| + 1 && |envs| == |requests|
    && forall i | 0 <= i < |requests| ::
         HandledTo(states[i], requests[i], states[i + 1], domain, envs[i]) && GenuineEnv(owner, envs[i])
  }

  /** In every run of requests that return, a miniverse is started exactly when its container runs under the stored
      id and its websocket controller has its one task, controllers are exactly the miniverses, the routes file is
      the route map of the table, and every mod row has its own file. */
  lemma {:induction false} RunStaysHealthy(states: seq<World>, requests: seq<Request>, envs: seq<Env>, domain: string, owner: ModsSafety.Owner)
    requires IsRun(states, requests, envs, domain, owner) && Healthy(states[0], domain, owner)
    ensures Healthy(states[|requests|], domain, owner)
  {
    if requests != [] {
      var n := |requests| - 1;
      RunStaysHealthy(states[..n + 1], requests[..n], envs[..n], domain, owner);
      assert HandledTo(states[n], requests[n], states[n + 1], domain, envs[n]);
      match requests[n]
      case CreateOne(_, _, _, _) => CreateIsHealthy(states[n], requests[n], states[n + 1], domain, envs[n], owner);
      case DeleteOne(_) => DeleteIsHealthy(states[n], requests[n], states[n + 1], domain, envs[n], owner);
      case UpdateOne(id, patch, version) =>
        UpdateKeepsSubs(states[n], id, patch, version, domain, envs[n]);
        UpdateIsHealthy(states[n], id, patch, version, domain, envs[n], owner);
      case _ => StartStopIsHealthy(states[n], requests[n], states[n + 1], domain, envs[n], owner);
    }
  }

  /* ---- versions only go up ---- */

  type Admissible = string -> bool
  type Relation = (string, string) -> bool

  /** A relation that every accepted comparison of admissible versions respects. */
  ghost predicate AcceptedGoUp(env: Env, ok: Admissible, up: Relation) {
    forall v, w | v != w && ok(v) && ok(w) && env.compare(v, w).Ordered? && env.compare(v, w).order <= 0 :: up(v, w)
  }

  ghost predicate Preorder(ok: Admissible, up: Relation) {
    && (forall v | ok(v) :: up(v, v))
    && (forall u, v, w | ok(u) && ok(v) && ok(w) && up(u, v) && up(v, w) :: up(u, w))
  }

  /** The request leaves the miniverse in place and asks only for admissible versions. */
  predicate KeepsAdmissible(r: Request, id: MiniId, ok: Admissible) {
    match r
    case CreateOne(k, _, _, _) => k != id
    case DeleteOne(k) => k != id
    case UpdateOne(k, _, version) => k == id && version.Some? ==> ok(version.value)
    case _ => true
  }

  /** The row is there with an admissible version that is up from `v`. */
  predicate UpFrom(v: string, w: World, id: MiniId, ok: Admissible, up: Relation) {
    id in w.table && ok(w.table[id].mcVersion) && up(v, w.table[id].mcVersion)
  }

  lemma ApplyVersionRow(w: World, id: MiniId, version: string, env: Env)
    requires id in w.table && ModsListed(w, env)
    ensures var w' := ApplyVersion(w, id, version, env).world;
            id in w'.table && w'.table[id].mcVersion in {version, w.table[id].mcVersion}
  {
    var w1 := w.(mods := UpgradedMods(w, id, version, env).state);
    StopSites(w1, id);
    var stopped := Stop(w1, id);
    if stopped.outcome == Returned {
      var w2 := stopped.world;
      StartSites(w2.(table := w2.table[id := w2.table[id].(mcVersion := version)]), id, env);
    }
  }

  /** After the last part of an update the version is the old one, or a new one that the checks let pass. */
  lemma FinishVersionRow(w: World, id: MiniId, changed: set<Field>, version: Option<string>, domain: string, env: Env)
    requires id in w.table && ModsListed(w, env)
    ensures var w' := FinishUpdate(w, id, changed, version, domain, env).world;
            && id in w'.table
            && (|| w'.table[id].mcVersion == w.table[id].mcVersion
                || (version == Some(w'.table[id].mcVersion) && !VersionRefused(w, id, version.value, env)))
  {
    if version.Some? {
      ApplyVersionRow(w, id, version.value, env);
    }
  }

  lemma UpdateGoesUp(w: World, id: MiniId, patch: map<Field, string>, version: Option<string>, domain: string, env: Env, ok: Admissible, up: Relation)
    requires id in w.table && ModsListed(w, env) && ok(w.table[id].mcVersion) && (version.Some? ==> ok(version.value))
    requires AcceptedGoUp(env, ok, up) && Preorder(ok, up)
    ensures UpFrom(w.table[id].mcVersion, Update(w, id, patch, version, domain, env).world, id, ok, up)
  {
    if PatchFields(w.table, w.table[id], FIELDS, patch).Some? {
      PatchKeepsRest(w.table, w.table[id], FIELDS, patch);
      var w1, changed := UpdateIsPatchThenFinish(w, id, patch, version, domain, env);
      FinishVersionRow(w1, id, changed, version, domain, env);
    }
  }

  /** Requests for other miniverses leave a row as it is. */
  lemma OtherRowStays(w: World, r: Request, domain: string, env: Env, id: MiniId)
    requires ModsListed(w, env) && r.id != id && id in w.table
    ensures id in Handle(w, r, domain, env).world.table && Handle(w, r, domain, env).world.table[id] == w.table[id]
  {
    match r
    case CreateOne(k, attrs, kind, version) => CreateOtherRow(w, k, attrs, kind, version, domain, env, id);
    case StartOne(k) => StartOwnRow(w, k, env);
    case StopOne(k) => StopOwnRow(w, k);
    case RestartOne(k) =>
      StopOwnRow(w, k);
      StartOwnRow(Stop(w, k).world, k, env);
    case UpdateOne(k, patch, version) =>
      if k in w.table { UpdateOtherRow(w, k, patch, version, domain, env, id); }
    case DeleteOne(k) => DeleteOtherRow(w, k, domain, env, id);
  }

  lemma CreateOtherRow(w: World, k: MiniId, attrs: map<Field, string>, kind: ServerType, version: string, domain: string, env: Env, id: MiniId)
    requires k != id && id in w.table
    ensures var w' := Create(w, k, attrs, kind, version, domain, env).world; id in w'.table && w'.table[id] == w.table[id]
  {
    var w1 := w.(table := w.table[k := Mini(attrs, kind, version, None, false)]);
    var added := AddMiniverse(w1, k, version, env);
    if added.Some? {
      assert added.value.table == w1.table;
      StartOwnRow(added.value, k, env);
    }
  }

  lemma FinishOtherRow(w: World, k: MiniId, changed: set<Field>, version: Option<string>, domain: string, env: Env, id: MiniId)
    requires k in w.table && ModsListed(w, env) && k != id && id in w.table
    ensures var w' := FinishUpdate(w, k, changed, version, domain, env).world; id in w'.table && w'.table[id] == w.table[id]
  {
    if version.Some? {
      ApplyVersionSites(w, k, version.value, env);
    }
  }

  lemma UpdateOtherRow(w: World, k: MiniId, patch: map<Field, string>, version: Option<string>, domain: string, env: Env, id: MiniId)
    requires k in w.table && ModsListed(w, env) && k != id && id in w.table
    ensures var w' := Update(w, k, patch, version, domain, env).world; id in w'.table && w'.table[id] == w.table[id]
  {
    if PatchFields(w.table, w.table[k], FIELDS, patch).Some? {
      var w1, changed := UpdateIsPatchThenFinish(w, k, patch, version, domain, env);
      FinishOtherRow(w1, k, changed, version, domain, env, id);
    }
  }

  lemma DeleteOtherRow(w: World, k: MiniId, domain: string, env: Env, id: MiniId)
    requires k != id && id in w.table
    ensures var w' := Delete(w, k, domain, env).world; id in w'.table && w'.table[id] == w.table[id]
  {
  }

  lemma OwnRowGoesUp(w: World, r: Request, w': World, domain: string, env: Env, ok: Admissible, up: Relation)
    requires LeadsTo(w, r, w', domain, env) && KeepsAdmissible(r, r.id, ok) && r.id in w.table && ok(w.table[r.id].mcVersion)
    requires AcceptedGoUp(env, ok, up) && Preorder(ok, up)
    ensures UpFrom(w.table[r.id].mcVersion, w', r.id, ok, up)
  {
    match r
    case StartOne(k) => StartOwnRow(w, k, env);
    case StopOne(k) => StopOwnRow(w, k);
    case RestartOne(k) =>
      StopOwnRow(w, k);
      StartOwnRow(Stop(w, k).world, k, env);
    case UpdateOne(k, patch, version) => UpdateGoesUp(w, k, patch, version, domain, env, ok, up);
    case _ =>
  }

  /** Over any run of requests, whether they return, are refused or fail, the version of a miniverse goes up in every
      preorder that accepted comparisons respect. */
  lemma {:induction false} RunGoesUp(states: seq<World>, requests: seq<Request>, envs: seq<Env>, domain: string,
                                     id: MiniId, ok: Admissible, up: Relation)
    requires IsHistory(states, requests, envs, domain) && Preorder(ok, up)
    requires forall i | 0 <= i < |requests| :: KeepsAdmissible(requests[i], id, ok) && AcceptedGoUp(envs[i], ok, up)
    requires id in states[0].table && ok(states[0].table[id].mcVersion)
    ensures UpFrom(states[0].table[id].mcVersion, states[|requests|], id, ok, up)
  {
    if requests != [] {
      var n := |requests| - 1;
      RunGoesUp(states[..n + 1], requests[..n], envs[..n], domain, id, ok, up);
      assert LeadsTo(states[n], requests[n], states[n + 1], domain, envs[n]);
      if requests[n].id == id {
        OwnRowGoesUp(states[n], requests[n], states[n + 1], domain, envs[n], ok, up);
      } else {
        OtherRowStays(states[n], requests[n], domain, envs[n], id);
      }
    }
  }

  /** The version parses and is no old snapshot. */
  predicate Numbered(version: string) {
    ParseVersion(version).Some? && !OldSnapshotVersion(ParseVersion(version).value)
  }

  predicate NotLower(from: string, to: string) {
    Numbered(from) && Numbered(to) && !MainLess(ParseVersion(to).value, ParseVersion(from).value)
  }

  /** The comparison is the version service's, on some listing. */
  ghost predicate ComparesVersions(env: Env) {
    exists listing :: ComparesOn(env, listing)
  }

  ghost predicate ComparesOn(env: Env, listing: seq<Listed>) {
    forall v, w {:trigger CompareVersions(listing, v, w)} :: env.compare(v, w) == CompareVersions(listing, v, w)
  }

  lemma NotLowerIsPreorder()
    ensures Preorder(Numbered, NotLower)
  {
  }

  lemma AcceptedAreNotLower(env: Env)
    requires ComparesVersions(env)
    ensures AcceptedGoUp(env, Numbered, NotLower)
  {
    var listing :| ComparesOn(env, listing);
    forall v, w | v != w && Numbered(v) && Numbered(w) && env.compare(v, w).Ordered? && env.compare(v, w).order <= 0
      ensures NotLower(v, w)
    {
      AnswerFollowsNumbers(listing, v, w);
    }
  }

  /** Over any run of requests, however they end, among versions that are not old snapshots, the numbers of a
      miniverse's version never decrease. */
  lemma RunNeverLowersVersion(states: seq<World>, requests: seq<Request>, envs: seq<Env>, domain: string, id: MiniId)
    requires IsHistory(states, requests, envs, domain)
    requires forall i | 0 <= i < |requests| :: KeepsAdmissible(requests[i], id, Numbered) && ComparesVersions(envs[i])
    requires id in states[0].table && Numbered(states[0].table[id].mcVersion)
    ensures UpFrom(states[0].table[id].mcVersion, states[|requests|], id, Numbered, NotLower)
  {
    NotLowerIsPreorder();
    forall i | 0 <= i < |requests| ensures AcceptedGoUp(envs[i], Numbered, NotLower) {
      AcceptedAreNotLower(envs[i]);
    }
    RunGoesUp(states, requests, envs, domain, id, Numbered, NotLower);
  }

  /* ---- from a route back to a controller ---- */

  /** The router service a webhook with this backend text is handed to, if any. */
  function HandlerOf(w: World, backend: string): Option<MiniId> {
    var target := RecoveredId(backend);
    if target in w.controllers && w.controllers[target] == Router then Some(target) else None
  }

  /** A webhook for a routed miniverse reaches its own router controller exactly when its id has no colon and does not
      begin with a letter of "miniverse-". */
  lemma RoutedWebhookFindsItsController(w: World, domain: string, id: MiniId)
    requires Agrees(w) && RoutesCurrent(w, domain) && DistinctSubs(w.table) && id in w.table && w.controllers[id] == Router
    ensures Host(SubdomainOf(w.table, id), domain) in w.routes
    ensures HandlerOf(w, w.routes[Host(SubdomainOf(w.table, id), domain)]) == Some(id) <==>
            ':' !in id && (id == "" || id[0] !in CharsOf("miniverse-"))
  {
    CurrentRoutesLeadHome(w, domain);
    IdIsRecoveredExactlyWhen(id);
  }
}
