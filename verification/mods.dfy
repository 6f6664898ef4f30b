/** The mods of the miniverses: their rows, their files, and the choice of versions. */
module Mods {
  import opened Text
  import opened Paths

  type MiniId = string
  type ModId = string

  datatype Channel = ReleaseChannel | BetaChannel | AlphaChannel

  datatype VersionFile = VersionFile(filename: string, primary: bool)

  datatype ModVersion = ModVersion(id: string, projectId: string, number: string, published: int,
                                   gameVersions: seq<string>, channel: Channel, files: seq<VersionFile>)

  datatype Project = Project(id: string, slug: string)

  /** What the mod platform answers about one version id: nothing, or the version with its project, and whether the
      file can be fetched. */
  datatype Answer = Unavailable | Found(version: ModVersion, project: Project, fetched: bool)

  type Details = string -> Answer

  /** The versions of a project, all or those for one game version; None when the query raises. */
  type Listing = (string, Option<string>) -> Option<seq<ModVersion>>

  datatype ModRow = ModRow(miniverse: MiniId, slug: string, versionId: string, projectId: string, fileName: string)

  /** Rows, and the files in the mods folders with the version each one holds. */
  datatype State = State(rows: map<ModId, ModRow>, files: map<(MiniId, string), string>)

  datatype Outcome = Outcome(state: State, ok: bool)

  /* ---- files ---- */

  function PrimaryFile(files: seq<VersionFile>): Option<string> {
    if files == [] then None
    else if files[0].primary then Some(files[0].filename)
    else PrimaryFile(files[1..])
  }

  function FileName(project: Project, version: ModVersion): string {
    project.slug + "-" + version.number + "-" + version.id + ".jar"
  }

  /** Whether the version's file can be put in the mods folder: a primary jar, fetched, and a name that is one
      component, as no folder is made for it. */
  predicate Installable(a: Answer) {
    && a.Found? && a.fetched
    && PrimaryFile(a.version.files).Some?
    && Suffix(Name(ParsePath(PrimaryFile(a.version.files).value).parts)) == ".jar"
    && '/' !in FileName(a.project, a.version)
  }

  function WithFile(files: map<(MiniId, string), string>, m: MiniId, a: Answer): map<(MiniId, string), string>
    requires a.Found?
  {
    files[(m, FileName(a.project, a.version)) := a.version.id]
  }

  /* ---- installing, updating, uninstalling ---- */

  /** The old file is deleted before the new one is fetched, so a failure leaves the row without its file. */
  function Update(s: State, id: ModId, a: Answer): Outcome
    requires id in s.rows
  {
    var row := s.rows[id];
    if a.Unavailable? then Outcome(s, false)
    else
      var files := s.files - {(row.miniverse, row.fileName)};
      if !Installable(a) then Outcome(s.(files := files), false)
      else
        var row' := row.(versionId := a.version.id, projectId := a.version.projectId,
                         fileName := FileName(a.project, a.version));
        Outcome(State(s.rows[id := row'], WithFile(files, row.miniverse, a)), true)
  }

  /** The row of a project in a miniverse. */
  ghost predicate IsRowOf(s: State, id: ModId, m: MiniId, project: string) {
    id in s.rows && s.rows[id].miniverse == m && s.rows[id].projectId == project
  }

  /** A new row and its file. */
  function Add(s: State, m: MiniId, newId: ModId, a: Answer): Outcome {
    if a.Unavailable? || !Installable(a) then Outcome(s, false)
    else
      var row := ModRow(m, a.project.slug, a.version.id, a.version.projectId, FileName(a.project, a.version));
      Outcome(State(s.rows[newId := row], WithFile(s.files, m, a)), true)
  }

  /** What an install may do: update a row of the project if the miniverse has one, else add one. */
  ghost predicate Installs(s: State, m: MiniId, newId: ModId, a: Answer, done: Outcome) {
    if a.Found? && exists id :: IsRowOf(s, id, m, a.project.id)
    then exists id :: IsRowOf(s, id, m, a.project.id) && done == Update(s, id, a)
    else done == Add(s, m, newId, a)
  }

  function Uninstall(s: State, id: ModId): State
    requires id in s.rows
  {
    State(s.rows - {id}, s.files - {(s.rows[id].miniverse, s.rows[id].fileName)})
  }

  class ModsService {
    var rows: map<ModId, ModRow>
    var files: map<(MiniId, string), string>

    constructor ()
      ensures View() == State(map[], map[])
    {
      rows, files := map[], map[];
    }

    function View(): State
      reads this
    {
      State(rows, files)
    }

    method DeleteModFile(row: ModRow)
      modifies this`files
      ensures files == old(files) - {(row.miniverse, row.fileName)}
    {
      if (row.miniverse, row.fileName) in files {
        files := files - {(row.miniverse, row.fileName)};
      }
    }

    method DownloadModFile(m: MiniId, a: Answer) returns (fileName: Option<string>)
      requires a.Found?
      modifies this`files
      ensures fileName == if Installable(a) then Some(FileName(a.project, a.version)) else None
      ensures files == if Installable(a) then WithFile(old(files), m, a) else old(files)
    {
      var primary := PrimaryFile(a.version.files);
      if primary.None? || Suffix(Name(ParsePath(primary.value).parts)) != ".jar" {
        return None;
      }
      var name := FileName(a.project, a.version);
      if !a.fetched || '/' in name {
        return None;
      }
      files := files[(m, name) := a.version.id];
      return Some(name);
    }

    method UpdateMod(id: ModId, a: Answer) returns (ok: bool)
      requires id in rows
      modifies this
      ensures Outcome(View(), ok) == Update(old(View()), id, a)
    {
      if a.Unavailable? {
        return false;
      }
      var row := rows[id];
      DeleteModFile(row);
      var fileName := DownloadModFile(row.miniverse, a);
      if fileName.None? {
        return false;
      }
      row := row.(versionId := a.version.id);
      row := row.(projectId := a.version.projectId);
      row := row.(fileName := fileName.value);
      rows := rows[id := row];
      return true;
    }

    /** `found` is the row the query returned, if any. */
    method InstallMod(m: MiniId, newId: ModId, a: Answer, found: Option<ModId>) returns (ok: bool)
      requires a.Found? ==> if found.Some? then IsRowOf(View(), found.value, m, a.project.id)
                            else forall id :: !IsRowOf(View(), id, m, a.project.id)
      modifies this
      ensures Installs(old(View()), m, newId, a, Outcome(View(), ok))
    {
      if a.Unavailable? {
        return false;
      }
      if found.Some? {
        ok := UpdateMod(found.value, a);
        return;
      }
      var fileName := DownloadModFile(m, a);
      if fileName.None? {
        return false;
      }
      rows := rows[newId := ModRow(m, a.project.slug, a.version.id, a.version.projectId, fileName.value)];
      return true;
    }

    method UninstallMod(id: ModId)
      requires id in rows
      modifies this
      ensures View() == Uninstall(old(View()), id)
      ensures rows == old(rows) - {id} && files == old(files) - {(old(rows)[id].miniverse, old(rows)[id].fileName)}
    {
      DeleteModFile(rows[id]);
      rows := rows - {id};
    }

    /** The mods of a miniverse in their order, each updated to the version offered for it, if one is available. */
    method UpgradeMods(mods: seq<ModId>, updates: map<ModId, UpdateInfo>, details: Details) returns (ok: bool)
      requires forall i | 0 <= i < |mods| :: mods[i] in rows && mods[i] in updates
      requires forall i | 0 <= i < |mods| :: updates[mods[i]].status == Available ==> updates[mods[i]].versions != []
      modifies this
      ensures Outcome(View(), ok) == UpgradeAll(old(View()), mods, updates, details)
    {
      ghost var start := View();
      for i := 0 to |mods|
        invariant UpgradeAll(start, mods[..i], updates, details) == Outcome(View(), true)
        invariant rows.Keys == start.rows.Keys
      {
        assert mods[..i + 1][..i] == mods[..i];
        var info := updates[mods[i]];
        if info.status == Available {
          var updated := UpdateMod(mods[i], details(info.versions[0]));
          if !updated {
            StoppedUpgrade(start, mods, i + 1, updates, details);
            return false;
          }
        }
      }
      assert mods[..|mods|] == mods;
      return true;
    }
  }

  /* ---- choosing versions ---- */

  datatype UpdateStatus = UpToDate | Available | NoCompatible | Failed

  datatype UpdateInfo = UpdateInfo(status: UpdateStatus, versions: seq<string>, gameVersions: seq<seq<string>>)

  function InsertByDate(v: ModVersion, sorted: seq<ModVersion>): seq<ModVersion> {
    if sorted == [] || v.published >= sorted[0].published then [v] + sorted
    else [sorted[0]] + InsertByDate(v, sorted[1..])
  }

  /** `sorted(..., reverse=True)` by date: newest first, equal dates in their first order. */
  function NewestFirst(vs: seq<ModVersion>): seq<ModVersion> {
    if vs == [] then [] else InsertByDate(vs[0], NewestFirst(vs[1..]))
  }

  predicate Eligible(v: ModVersion, game: string, installed: string) {
    game in v.gameVersions || v.id == installed
  }

  function Scan(vs: seq<ModVersion>, game: string, installed: string): Option<ModVersion> {
    if vs == [] then None
    else if Eligible(vs[0], game, installed) then Some(vs[0])
    else Scan(vs[1..], game, installed)
  }

  function Ids(vs: seq<ModVersion>): seq<string> {
    seq(|vs|, i requires 0 <= i < |vs| => vs[i].id)
  }

  function Games(vs: seq<ModVersion>): seq<seq<string>> {
    seq(|vs|, i requires 0 <= i < |vs| => vs[i].gameVersions)
  }

  /** The versions considered for a project: those for the game version, or all of them if there are none; None when
      a query raises. */
  function Considered(list: Listing, project: string, game: string): Option<seq<ModVersion>> {
    var direct := list(project, Some(game));
    if direct.Some? && direct.value == [] then list(project, None) else direct
  }

  function UpdateFor(list: Listing, project: string, installed: string, game: string): UpdateInfo {
    var vs := Considered(list, project, game);
    if vs.None? || vs.value == [] then UpdateInfo(Failed, [], [])
    else
      var sorted := NewestFirst(vs.value);
      match Scan(sorted, game, installed)
      case Some(v) => UpdateInfo(if v.id == installed then UpToDate else Available, [v.id], [v.gameVersions])
      case None => UpdateInfo(NoCompatible, Ids(sorted), Games(sorted))
  }

  function UpdatesFor(rows: map<ModId, ModRow>, mods: seq<ModId>, list: Listing, game: string): map<ModId, UpdateInfo>
    requires forall i | 0 <= i < |mods| :: mods[i] in rows
  {
    map id | id in mods :: UpdateFor(list, rows[id].projectId, rows[id].versionId, game)
  }

  method ListPossibleModUpdates(rows: map<ModId, ModRow>, mods: seq<ModId>, list: Listing, game: string)
    returns (updates: map<ModId, UpdateInfo>)
    requires forall i | 0 <= i < |mods| :: mods[i] in rows
    ensures updates == UpdatesFor(rows, mods, list, game)
  {
    updates := map[];
    for i := 0 to |mods|
      invariant updates.Keys == set id | id in mods[..i]
      invariant forall id | id in updates :: id in rows && updates[id] == UpdateFor(list, rows[id].projectId, rows[id].versionId, game)
    {
      var id := mods[i];
      var row := rows[id];
      var info := UpdateInfo(Failed, [], []);
      var versions := list(row.projectId, Some(game));
      if versions.Some? && versions.value == [] {
        versions := list(row.projectId, None);
      }
      if versions.Some? && versions.value != [] {
        var sorted := NewestFirst(versions.value);
        info := ScanVersions(sorted, game, row.versionId);
      }
      assert mods[..i + 1] == mods[..i] + [id];
      updates := updates[id := info];
    }
    assert mods[..|mods|] == mods;
  }

  /** The loop over the sorted versions, with its `else`. */
  method ScanVersions(sorted: seq<ModVersion>, game: string, installed: string) returns (info: UpdateInfo)
    ensures info == match Scan(sorted, game, installed)
                    case Some(v) => UpdateInfo(if v.id == installed then UpToDate else Available, [v.id], [v.gameVersions])
                    case None => UpdateInfo(NoCompatible, Ids(sorted), Games(sorted))
  {
    for i := 0 to |sorted|
      invariant Scan(sorted, game, installed) == Scan(sorted[i..], game, installed)
    {
      var version := sorted[i];
      assert sorted[i..][1..] == sorted[i + 1..];
      if game in version.gameVersions || version.id == installed {
        if version.id == installed {
          return UpdateInfo(UpToDate, [version.id], [version.gameVersions]);
        }
        return UpdateInfo(Available, [version.id], [version.gameVersions]);
      }
    }
    return UpdateInfo(NoCompatible, Ids(sorted), Games(sorted));
  }

  ghost predicate SortedByDate(vs: seq<ModVersion>) {
    forall i, j | 0 <= i < j < |vs| :: vs[i].published >= vs[j].published
  }

  lemma {:induction false} InsertKeepsSorted(v: ModVersion, sorted: seq<ModVersion>)
    requires SortedByDate(sorted)
    ensures SortedByDate(InsertByDate(v, sorted))
    ensures forall w :: w in InsertByDate(v, sorted) <==> w == v || w in sorted
  {
    if sorted != [] && v.published < sorted[0].published {
      InsertKeepsSorted(v, sorted[1..]);
      assert forall w :: w in sorted <==> w == sorted[0] || w in sorted[1..];
      forall i | 0 <= i < |InsertByDate(v, sorted[1..])|
        ensures sorted[0].published >= InsertByDate(v, sorted[1..])[i].published
      {
        assert InsertByDate(v, sorted[1..])[i] in InsertByDate(v, sorted[1..]);
      }
    }
  }

  lemma {:induction false} NewestFirstSorts(vs: seq<ModVersion>)
    ensures SortedByDate(NewestFirst(vs)) && forall w :: w in NewestFirst(vs) <==> w in vs
  {
    if vs != [] {
      NewestFirstSorts(vs[1..]);
      InsertKeepsSorted(vs[0], NewestFirst(vs[1..]));
      assert forall w :: w in vs <==> w == vs[0] || w in vs[1..];
    }
  }

  lemma {:induction false} ScanFindsNewest(vs: seq<ModVersion>, game: string, installed: string)
    requires SortedByDate(vs)
    ensures match Scan(vs, game, installed)
            case None => forall w | w in vs :: !Eligible(w, game, installed)
            case Some(v) => v in vs && Eligible(v, game, installed)
                            && forall w | w in vs && Eligible(w, game, installed) :: w.published <= v.published
  {
    if vs != [] {
      ScanFindsNewest(vs[1..], game, installed);
      assert forall w :: w in vs <==> w == vs[0] || w in vs[1..];
      if Eligible(vs[0], game, installed) {
        forall w | w in vs ensures w.published <= vs[0].published {
          var i :| 0 <= i < |vs| && vs[i] == w;
        }
      }
    }
  }

  ghost predicate NewestEligible(v: ModVersion, vs: seq<ModVersion>, game: string, installed: string) {
    && v in vs && Eligible(v, game, installed)
    && forall w | w in vs && Eligible(w, game, installed) :: w.published <= v.published
  }

  ghost predicate Offers(info: UpdateInfo, v: ModVersion, vs: seq<ModVersion>, game: string, installed: string) {
    && NewestEligible(v, vs, game, installed) && info.versions == [v.id] && info.gameVersions == [v.gameVersions]
    && info.status == if v.id == installed then UpToDate else Available
  }

  /** What an entry of the list means, for any answers of the platform: the version offered is the newest one that
      lists the game version or is installed, it is up to date exactly when that is the installed one, and otherwise
      either nothing was returned or nothing returned is eligible. */
  lemma UpdateIsNewestEligible(list: Listing, project: string, installed: string, game: string)
    ensures var info, vs := UpdateFor(list, project, installed, game), Considered(list, project, game);
            match info.status
            case Failed => vs.None? || vs.value == []
            case NoCompatible => vs.Some? && vs.value != [] && forall w | w in vs.value :: !Eligible(w, game, installed)
            case _ => vs.Some? && exists v :: Offers(info, v, vs.value, game, installed)
  {
    var vs := Considered(list, project, game);
    if vs.Some? && vs.value != [] {
      var sorted := NewestFirst(vs.value);
      NewestFirstSorts(vs.value);
      ScanFindsNewest(sorted, game, installed);
      if Scan(sorted, game, installed).Some? {
        var v := Scan(sorted, game, installed).value;
        assert Offers(UpdateFor(list, project, installed, game), v, vs.value, game, installed);
      }
    }
  }

  function Releases(vs: seq<ModVersion>): seq<ModVersion> {
    if vs == [] then []
    else (if vs[0].channel == ReleaseChannel then [vs[0]] else []) + Releases(vs[1..])
  }

  /** The versions an automatic install chooses from: those for the game version, or all of them if there are none and
      it may retry; None when a query it makes raises. */
  function Choices(list: Listing, project: string, game: string, retry: bool): Option<seq<ModVersion>> {
    var direct := list(project, Some(game));
    if direct.Some? && direct.value == [] && retry then list(project, None) else direct
  }

  /** The version taken from a list: releases first, if asked for, and the newest of them. */
  function PickFrom(vs: seq<ModVersion>, prioritize: bool): ModVersion
    requires vs != []
  {
    var releases := Releases(vs);
    var pool := if prioritize && releases != [] then releases else vs;
    NewestFirstSorts(pool);
    assert pool[0] in pool;
    NewestFirst(pool)[0]
  }

  /** The version an automatic install takes; None where the source raises. */
  function PickVersion(list: Listing, project: string, game: string, prioritize: bool, retry: bool): Option<ModVersion> {
    var vs := Choices(list, project, game, retry);
    if vs.None? || vs.value == [] then None else Some(PickFrom(vs.value, prioritize))
  }

  lemma {:induction false} ReleasesAre(vs: seq<ModVersion>, w: ModVersion)
    ensures w in Releases(vs) <==> w in vs && w.channel == ReleaseChannel
  {
    if vs != [] {
      ReleasesAre(vs[1..], w);
      assert w in vs <==> w == vs[0] || w in vs[1..];
    }
  }

  /** The picked version is in the list, a release if releases come first and there is one, and no version it
      competes with is newer. */
  ghost predicate IsNewestPick(picked: ModVersion, vs: seq<ModVersion>, prioritize: bool) {
    && picked in vs
    && forall w | w in vs ::
         && (prioritize && w.channel == ReleaseChannel ==> picked.channel == ReleaseChannel)
         && (w.channel == ReleaseChannel || !prioritize || picked.channel != ReleaseChannel ==> w.published <= picked.published)
  }

  lemma NewestIsFirst(pool: seq<ModVersion>)
    requires pool != []
    ensures NewestFirst(pool) != [] && NewestFirst(pool)[0] in pool
    ensures forall w | w in pool :: w.published <= NewestFirst(pool)[0].published
  {
    NewestFirstSorts(pool);
    assert pool[0] in pool;
    forall w | w in pool ensures w.published <= NewestFirst(pool)[0].published {
      var i :| 0 <= i < |NewestFirst(pool)| && NewestFirst(pool)[i] == w;
    }
  }

  lemma PickFromIsNewest(vs: seq<ModVersion>, prioritize: bool)
    requires vs != []
    ensures IsNewestPick(PickFrom(vs, prioritize), vs, prioritize)
  {
    var releases := Releases(vs);
    forall w ensures w in releases <==> w in vs && w.channel == ReleaseChannel {
      ReleasesAre(vs, w);
    }
    NewestIsFirst(if prioritize && releases != [] then releases else vs);
  }

  /** An automatic install takes the newest release if releases come first and there is one among its choices, else
      the newest version; it raises exactly when there is no choice. */
  lemma PickIsNewest(list: Listing, project: string, game: string, prioritize: bool, retry: bool)
    ensures var vs, picked := Choices(list, project, game, retry), PickVersion(list, project, game, prioritize, retry);
            && (picked.None? <==> vs.None? || vs.value == [])
            && (picked.Some? ==> IsNewestPick(picked.value, vs.value, prioritize))
  {
    var vs := Choices(list, project, game, retry);
    if vs.Some? && vs.value != [] {
      PickFromIsNewest(vs.value, prioritize);
    }
  }

  /* ---- upgrading all mods of a miniverse ---- */

  function UpgradeAll(s: State, mods: seq<ModId>, updates: map<ModId, UpdateInfo>, details: Details): Outcome
    requires forall i | 0 <= i < |mods| :: mods[i] in s.rows && mods[i] in updates
    requires forall i | 0 <= i < |mods| :: updates[mods[i]].status == Available ==> updates[mods[i]].versions != []
    ensures UpgradeAll(s, mods, updates, details).state.rows.Keys == s.rows.Keys
  {
    if mods == [] then Outcome(s, true)
    else
      var n := |mods| - 1;
      var before := UpgradeAll(s, mods[..n], updates, details);
      var info := updates[mods[n]];
      if !before.ok || info.status != Available then before
      else Update(before.state, mods[n], details(info.versions[0]))
  }

  /** An upgrade of all mods succeeds exactly when the version of every available update can be put in the folder. */
  lemma {:induction false} UpgradeAllSucceedsExactlyWhen(s: State, mods: seq<ModId>, updates: map<ModId, UpdateInfo>, details: Details)
    requires forall i | 0 <= i < |mods| :: mods[i] in s.rows && mods[i] in updates
    requires forall i | 0 <= i < |mods| :: updates[mods[i]].status == Available ==> updates[mods[i]].versions != []
    ensures UpgradeAll(s, mods, updates, details).ok <==> forall id | id in mods :: UpdateWorks(updates, details, id)
  {
    if mods != [] {
      var n := |mods| - 1;
      UpgradeAllSucceedsExactlyWhen(s, mods[..n], updates, details);
      assert mods == mods[..n] + [mods[n]];
      assert forall id :: id in mods <==> id in mods[..n] || id == mods[n];
      assert UpgradeAll(s, mods, updates, details).ok <==>
             UpgradeAll(s, mods[..n], updates, details).ok && UpdateWorks(updates, details, mods[n]);
    }
  }

  /** There is no update for the mod, or its version can be put in the folder. */
  predicate UpdateWorks(updates: map<ModId, UpdateInfo>, details: Details, id: ModId) {
    id in updates && updates[id].status == Available ==>
      updates[id].versions != [] && Installable(details(updates[id].versions[0]))
  }

  lemma {:induction false} StoppedUpgrade(s: State, mods: seq<ModId>, i: nat, updates: map<ModId, UpdateInfo>, details: Details)
    requires forall i | 0 <= i < |mods| :: mods[i] in s.rows && mods[i] in updates
    requires forall i | 0 <= i < |mods| :: updates[mods[i]].status == Available ==> updates[mods[i]].versions != []
    requires i <= |mods| && !UpgradeAll(s, mods[..i], updates, details).ok
    ensures UpgradeAll(s, mods, updates, details) == UpgradeAll(s, mods[..i], updates, details)
    decreases |mods|
  {
    if i < |mods| {
      assert mods[..|mods| - 1][..i] == mods[..i];
      StoppedUpgrade(s, mods[..|mods| - 1], i, updates, details);
    } else {
      assert mods[..i] == mods;
    }
  }
}
