/** Which controller a miniverse gets, which versions it can be created with, and what later versions make of it. */
module ControllerKinds {
  import opened Text
  import opened Versions
  import opened VersionOrder
  import opened Lifecycle
  import opened LifecycleSafety
  import opened LifecycleRuns
  import Mods

  /* ---- which controller a version gets ---- */

  function Threshold(): Parsed {
    Parsed("1.21.9", Release, Old, 1, 21, 9, Number(0), None)
  }

  lemma ThresholdIsRead(threshold: string)
    requires threshold == Threshold().text
    ensures ParseVersion(threshold) == Some(Threshold())
  {
    var g := Groups("1", "21", Some("9"), None, None);
    assert threshold == Layout(OldRelease, g);
    assert ParseNat("1") == 1 && ParseNat("9") == 9;
    assert ParseNat("21") == 21 by { assert "21"[..1] == "2"; }
    ParseReadsAnyFormat(OldRelease, threshold, g);
  }

  lemma ComparedWithRelease(env: Env, version: string, release: string)
    requires ComparesVersions(env) && Numbered(version) && ParseVersion(release).Some? && ParseVersion(release).value.kind == Release
    ensures AnswersAgainstRelease(ParseVersion(version).value, ParseVersion(release).value, env.compare(version, release))
  {
    var listing :| ComparesOn(env, listing);
    AgainstRelease(listing, version, release);
  }

  /** The controller a version gets, by its numbers against a threshold's. */
  predicate ControllerFollows(v: Parsed, t: Parsed, c: Option<Controller>) {
    && (MainLess(t, v) ==> c == Some(WebSocket(None)))
    && (MainLess(v, t) || (CompareMain(v, t) == 0 && v.kind == Prerelease) || v.text == t.text ==> c == Some(Router))
  }

  lemma ControllerFollowsAnswer(compare: (string, string) -> Comparison, v: Parsed, t: Parsed)
    requires t.text == "1.21.9" && AnswersAgainstRelease(v, t, compare(v.text, t.text))
    ensures ControllerFollows(v, t, NewController(compare, v.text))
  {
  }

  /** A miniverse whose version has higher numbers than 1.21.9 gets a websocket controller; one with lower numbers, a
      prerelease of 1.21.9 and 1.21.9 itself get the router's. */
  lemma ControllerByVersion(env: Env, version: string)
    requires ComparesVersions(env) && Numbered(version)
    ensures ControllerFollows(ParseVersion(version).value, Threshold(), NewController(env.compare, version))
  {
    var v, t := ParseVersion(version).value, Threshold();
    ThresholdIsRead(t.text);
    ParsedIsPrintable(version);
    ComparedWithRelease(env, version, t.text);
    ControllerFollowsAnswer(env.compare, v, t);
  }

  /* ---- which versions a miniverse can be created with ---- */

  lemma ControllerExactlyWhenParsable(env: Env, version: string)
    requires ComparesVersions(env)
    ensures NewController(env.compare, version).Some? <==> ParseVersion(version).Some?
  {
    var threshold := Threshold().text;
    ThresholdIsRead(threshold);
    var listing :| ComparesOn(env, listing);
    RaisesExactlyWhen(listing, version, threshold);
    assert env.compare(version, threshold) == CompareVersions(listing, version, threshold);
  }

  /** A creation returns, and keeps rows, containers, controllers and tasks in agreement, exactly when its version can
      be parsed; else the row is there without a controller. */
  lemma CreateKeepsAgreementExactlyWhenParsable(w: World, id: MiniId, attrs: map<Field, string>, kind: ServerType, version: string, domain: string, env: Env)
    requires Agrees(w) && FreshEnv(w, env) && id !in w.table && ComparesVersions(env)
    ensures var done := Create(w, id, attrs, kind, version, domain, env);
            && (Agrees(done.world) <==> ParseVersion(version).Some?)
            && (done.outcome == Returned <==> ParseVersion(version).Some?)
            && (ParseVersion(version).None? ==> id in done.world.table && id !in done.world.controllers)
  {
    CreateKeepsAgreementExactlyWhen(w, id, attrs, kind, version, domain, env);
    ControllerExactlyWhenParsable(env, version);
  }

  /** Such an input: a miniverse of version "latest". */
  lemma CreateOfWordFails(id: MiniId, attrs: map<Field, string>, kind: ServerType, domain: string, listing: seq<Listed>) returns (w: World, env: Env)
    ensures w == World(map[], map[], map[], map[], map[], Mods.State(map[], map[])) && Agrees(w) && ComparesVersions(env)
    ensures var w' := Create(w, id, attrs, kind, "latest", domain, env).world;
            id in w'.table && id !in w'.controllers && !Agrees(w')
  {
    w := World(map[], map[], map[], map[], map[], Mods.State(map[], map[]));
    env := PlainEnv(listing);
    assert ComparesOn(env, listing);
    var word := "latest";
    WordIsNoVersion(word);
    CreateKeepsAgreementExactlyWhenParsable(w, id, attrs, kind, word, domain, env);
  }

  /* ---- the kind of a controller through a run ---- */

  ghost predicate SameKind(w: World, w': World, id: MiniId) {
    id in w.controllers && id in w'.controllers && w'.controllers[id].WebSocket? == w.controllers[id].WebSocket?
  }

  lemma StartStopKeepKind(w: World, k: MiniId, env: Env, id: MiniId)
    requires id in w.controllers
    ensures SameKind(w, Start(w, k, env).world, id) && SameKind(w, Stop(w, k).world, id)
  {
  }

  lemma RestartKeepsKind(w: World, k: MiniId, env: Env, id: MiniId)
    requires id in w.controllers
    ensures SameKind(w, Restart(w, k, env).world, id)
  {
    StartStopKeepKind(w, k, env, id);
    StartStopKeepKind(Stop(w, k).world, k, env, id);
  }

  lemma CreateKeepsKind(w: World, k: MiniId, attrs: map<Field, string>, kind: ServerType, version: string, domain: string, env: Env, id: MiniId)
    requires id in w.controllers
    ensures SameKind(w, Create(w, k, attrs, kind, version, domain, env).world, id)
  {
    var w1 := w.(table := w.table[k := Mini(attrs, kind, version, None, false)]);
    var added := AddMiniverse(w1, k, version, env);
    if added.Some? {
      StartStopKeepKind(added.value, k, env, id);
    }
  }

  lemma ApplyVersionKeepsKind(w: World, k: MiniId, version: string, env: Env, id: MiniId)
    requires id in w.controllers && k in w.table && ModsListed(w, env)
    ensures SameKind(w, ApplyVersion(w, k, version, env).world, id)
  {
    var w1 := w.(mods := UpgradedMods(w, k, version, env).state);
    StartStopKeepKind(w1, k, env, id);
    var w2 := Stop(w1, k).world;
    if Stop(w1, k).outcome == Returned {
      StartStopKeepKind(w2.(table := w2.table[k := w2.table[k].(mcVersion := version)]), k, env, id);
    }
  }

  lemma UpdateKeepsKind(w: World, k: MiniId, patch: map<Field, string>, version: Option<string>, domain: string, env: Env, id: MiniId)
    requires id in w.controllers && k in w.table && ModsListed(w, env)
    ensures SameKind(w, Update(w, k, patch, version, domain, env).world, id)
  {
    if PatchFields(w.table, w.table[k], FIELDS, patch).Some? {
      var w1, changed := UpdateIsPatchThenFinish(w, k, patch, version, domain, env);
      if version.Some? {
        ApplyVersionKeepsKind(w1, k, version.value, env, id);
      }
    }
  }

  lemma HandleKeepsKind(w: World, r: Request, domain: string, env: Env, id: MiniId)
    requires id in w.controllers && ModsListed(w, env) && (r.DeleteOne? ==> r.id != id)
    ensures SameKind(w, Handle(w, r, domain, env).world, id)
  {
    match r
    case CreateOne(k, attrs, kind, version) => CreateKeepsKind(w, k, attrs, kind, version, domain, env, id);
    case StartOne(k) => StartStopKeepKind(w, k, env, id);
    case StopOne(k) => StartStopKeepKind(w, k, env, id);
    case RestartOne(k) => RestartKeepsKind(w, k, env, id);
    case UpdateOne(k, patch, version) =>
      if k in w.table { UpdateKeepsKind(w, k, patch, version, domain, env, id); }
    case DeleteOne(_) =>
  }

  /** Over any run of requests, however they end, that does not delete the miniverse its controller keeps its kind,
      whatever its versions. */
  lemma {:induction false} RunKeepsKind(states: seq<World>, requests: seq<Request>, envs: seq<Env>, domain: string, id: MiniId)
    requires IsHistory(states, requests, envs, domain) && id in states[0].controllers
    requires forall i | 0 <= i < |requests| :: requests[i].DeleteOne? ==> requests[i].id != id
    ensures SameKind(states[0], states[|requests|], id)
  {
    if requests != [] {
      var n := |requests| - 1;
      RunKeepsKind(states[..n + 1], requests[..n], envs[..n], domain, id);
      assert LeadsTo(states[n], requests[n], states[n + 1], domain, envs[n]);
      HandleKeepsKind(states[n], requests[n], domain, envs[n], id);
    }
  }

  /** The controller is of the kind a creation with this version would choose. */
  predicate KindFits(w: World, id: MiniId, compare: (string, string) -> Comparison) {
    id in w.table && id in w.controllers && (w.controllers[id].WebSocket? <==> PrefersWebSocket(compare, w.table[id].mcVersion))
  }

  predicate PrefersWebSocket(compare: (string, string) -> Comparison, version: string) {
    compare(version, Threshold().text) == Ordered(1)
  }

  lemma AppliedVersion(w: World, id: MiniId, version: string, env: Env)
    requires Agrees(w) && FreshEnv(w, env) && id in w.table && ModsListed(w, env)
    ensures var done := ApplyVersion(w, id, version, env);
            id in done.world.table && done.world.table[id].mcVersion == (if done.outcome == Returned then version else w.table[id].mcVersion)
  {
    ApplyVersionReturnsExactlyWhen(w, id, version, env);
    UpgradedExactlyWhen(w, id, version, env);
    ApplyVersionSites(w, id, version, env);
  }

  lemma FinishedVersion(w: World, id: MiniId, changed: set<Field>, version: Option<string>, domain: string, env: Env)
    requires Agrees(w) && FreshEnv(w, env) && id in w.table && ModsListed(w, env)
    ensures var done := FinishUpdate(w, id, changed, version, domain, env);
            && id in done.world.table
            && done.world.table[id].mcVersion == (if done.outcome == Returned && version.Some? then version.value else w.table[id].mcVersion)
  {
    if version.Some? {
      AppliedVersion(w, id, version.value, env);
    }
  }

  /** The version after an update: the new one exactly if the update returned. */
  lemma UpdatedVersion(w: World, id: MiniId, patch: map<Field, string>, version: Option<string>, domain: string, env: Env)
    requires Agrees(w) && FreshEnv(w, env) && id in w.table && ModsListed(w, env)
    ensures var done := Update(w, id, patch, version, domain, env);
            && id in done.world.table
            && done.world.table[id].mcVersion == (if done.outcome == Returned && version.Some? then version.value else w.table[id].mcVersion)
  {
    if PatchFields(w.table, w.table[id], FIELDS, patch).Some? {
      PatchKeepsRest(w.table, w.table[id], FIELDS, patch);
      var w1, changed := UpdateIsPatchThenFinish(w, id, patch, version, domain, env);
      OtherFieldsDoNotMatter(w, w1);
      FinishedVersion(w1, id, changed, version, domain, env);
    }
  }

  /** An update leaves a controller of the wrong kind exactly when it takes the version across 1.21.9. */
  lemma UpdateKeepsKindFitExactlyWhen(w: World, id: MiniId, patch: map<Field, string>, version: Option<string>, domain: string, env: Env)
    requires Agrees(w) && FreshEnv(w, env) && KindFits(w, id, env.compare) && ModsListed(w, env)
    ensures KindFits(Update(w, id, patch, version, domain, env).world, id, env.compare) <==>
            || version.None? || FieldsRefused(w, id, patch) || !VersionWorks(w, id, version, env)
            || (PrefersWebSocket(env.compare, version.value) <==> PrefersWebSocket(env.compare, w.table[id].mcVersion))
  {
    UpdateKeepsKind(w, id, patch, version, domain, env, id);
    UpdatedVersion(w, id, patch, version, domain, env);
    UpdateReturnsExactlyWhen(w, id, patch, version, domain, env);
  }

  /** The stopped miniverse behind the router, taken from a version not above 1.21.9 to one above. */
  lemma CrossingKeepsRouter(from: string, to: string, domain: string, env: Env)
    requires !PrefersWebSocket(env.compare, from) && PrefersWebSocket(env.compare, to) && env.compare(from, to) == Ordered(-1)
    requires env.modList == [] && from != to
    ensures var w := OneMiniverse(from, domain);
            && KindFits(w, "a", env.compare) && ModsListed(w, env)
            && !KindFits(Update(w, "a", map[], Some(to), domain, env).world, "a", env.compare)
  {
    var w := OneMiniverse(from, domain);
    assert Agrees(w) by { OneMiniverseIsHealthy(from, domain, []); }
    UpdateKeepsKindFitExactlyWhen(w, "a", map[], Some(to), domain, env);
  }

  lemma CrossingExample(listing: seq<Listed>) returns (from: string, to: string)
    ensures from == ReleaseText(1, 20) && to == ReleaseText(1, 22) && from != to
    ensures var compare := PlainEnv(listing).compare;
            !PrefersWebSocket(compare, from) && PrefersWebSocket(compare, to) && compare(from, to) == Ordered(-1)
  {
    from, to := NumbersAround();
    var threshold := Threshold().text;
    ThresholdIsRead(threshold);
    AgainstRelease(listing, from, threshold);
    AgainstRelease(listing, to, threshold);
    AgainstRelease(listing, from, to);
  }

  lemma NumbersAround() returns (from: string, to: string)
    ensures from == ReleaseText(1, 20) && to == ReleaseText(1, 22) && from != to
    ensures Numbered(from) && MainLess(ParseVersion(from).value, Threshold())
    ensures ParseVersion(to).Some? && ParseVersion(to).value.kind == Release && MainLess(Threshold(), ParseVersion(to).value)
  {
    from, to := ReleaseText(1, 20), ReleaseText(1, 22);
    ReadRelease(1, 20);
    ReadRelease(1, 22);
  }

  /** Such an input: from 1.20 to 1.22 a miniverse keeps the router's controller, where a new one would get a
      websocket. */
  lemma UpgradeKeepsRouter(domain: string, listing: seq<Listed>) returns (from: string, to: string)
    ensures from == ReleaseText(1, 20) && to == ReleaseText(1, 22)
    ensures var w, env := OneMiniverse(from, domain), PlainEnv(listing);
            && KindFits(w, "a", env.compare) && ModsListed(w, env)
            && !KindFits(Update(w, "a", map[], Some(to), domain, env).world, "a", env.compare)
  {
    from, to := CrossingExample(listing);
    CrossingKeepsRouter(from, to, domain, PlainEnv(listing));
  }
}
