/** What runs of installs, updates, uninstalls and upgrades keep: every row has its own file. */
module ModsSafety {
  import opened Text
  import opened Mods

  /** Which project a version belongs to; the platform never changes it. */
  type Owner = string -> string

  predicate DashFree(id: string) {
    '-' !in id
  }

  /** An answer about a version id is about that version and its project. */
  predicate Genuine(owner: Owner, asked: string, a: Answer) {
    a.Found? ==>
      && a.version.id == asked && DashFree(asked) && a.version.projectId == owner(asked) && a.project.id == owner(asked)
  }

  ghost predicate GenuineDetails(owner: Owner, details: Details) {
    forall id :: Genuine(owner, id, details(id))
  }

  /** The versions listed for a project are its own, with the game versions their details give. */
  ghost predicate GenuineListing(owner: Owner, list: Listing, details: Details) {
    forall project, game, v | list(project, game).Some? && v in list(project, game).value ::
      owner(v.id) == project && (details(v.id).Found? ==> details(v.id).version.gameVersions == v.gameVersions)
  }

  predicate EndsWith(s: string, tail: string) {
    |tail| <= |s| && s[|s| - |tail|..] == tail
  }

  /** A file name made for a version id. */
  predicate NamedFor(fileName: string, versionId: string) {
    EndsWith(fileName, "-" + versionId + ".jar")
  }

  /** One row by itself: its file is there and holds its version. */
  predicate RowFits(owner: Owner, s: State, id: ModId)
    requires id in s.rows
  {
    var row := s.rows[id];
    && NamedFor(row.fileName, row.versionId) && DashFree(row.versionId) && row.projectId == owner(row.versionId)
    && (row.miniverse, row.fileName) in s.files && s.files[(row.miniverse, row.fileName)] == row.versionId
  }

  predicate OtherProject(s: State, id: ModId, other: ModId)
    requires id in s.rows && other in s.rows
  {
    s.rows[id].miniverse == s.rows[other].miniverse ==> s.rows[id].projectId != s.rows[other].projectId
  }

  ghost predicate Sound(owner: Owner, s: State) {
    && (forall id | id in s.rows :: RowFits(owner, s, id))
    && (forall id, other | id in s.rows && other in s.rows && id != other :: OtherProject(s, id, other))
  }

  /** The version id can be read off the file name: it is what stands after the last dash. */
  lemma NameDeterminesVersion(fileName: string, a: string, b: string)
    requires NamedFor(fileName, a) && NamedFor(fileName, b) && DashFree(a) && DashFree(b)
    ensures a == b
  {
    if |a| == |b| {
      TailVersion(fileName, a);
      TailVersion(fileName, b);
    } else if |a| < |b| {
      ShorterVersionHasDash(fileName, a, b);
    } else {
      ShorterVersionHasDash(fileName, b, a);
    }
  }

  lemma TailVersion(fileName: string, a: string)
    requires NamedFor(fileName, a)
    ensures |fileName| >= |a| + 5 && a == fileName[|fileName| - |a| - 4..|fileName| - 4]
    ensures fileName[|fileName| - |a| - 5] == '-'
  {
    var n := |fileName| - |a| - 5;
    var tail := fileName[n..];
    assert tail == "-" + a + ".jar";
    assert a == tail[1..|a| + 1];
  }

  lemma ShorterVersionHasDash(fileName: string, a: string, b: string)
    requires NamedFor(fileName, a) && NamedFor(fileName, b) && |a| < |b|
    ensures !DashFree(b)
  {
    TailVersion(fileName, a);
    TailVersion(fileName, b);
    assert fileName[|fileName| - |a| - 5] == b[|b| - |a| - 1];
  }

  lemma FileNameIsNamed(project: Project, version: ModVersion)
    ensures NamedFor(FileName(project, version), version.id)
  {
    var front, tail := project.slug + "-" + version.number, "-" + version.id + ".jar";
    assert FileName(project, version) == front + tail;
    assert FileName(project, version)[|front|..] == tail;
  }

  /** No two rows of a miniverse share a file. */
  lemma RowsHaveOwnFiles(owner: Owner, s: State, id: ModId, other: ModId)
    requires Sound(owner, s) && id in s.rows && other in s.rows && id != other
    requires s.rows[id].miniverse == s.rows[other].miniverse
    ensures s.rows[id].fileName != s.rows[other].fileName
  {
    var a, b := s.rows[id], s.rows[other];
    assert OtherProject(s, id, other) && RowFits(owner, s, id) && RowFits(owner, s, other);
    if a.fileName == b.fileName {
      NameDeterminesVersion(a.fileName, a.versionId, b.versionId);
      assert false;
    }
  }

  /* ---- the operations ---- */

  /** No other row of the row's miniverse has the project of the version. */
  ghost predicate ProjectFree(s: State, id: ModId, a: Answer)
    requires id in s.rows && a.Found?
  {
    forall k | k in s.rows && k != id && s.rows[k].miniverse == s.rows[id].miniverse :: s.rows[k].projectId != a.version.projectId
  }

  lemma OwnProjectIsFree(owner: Owner, s: State, id: ModId, a: Answer)
    requires Sound(owner, s) && id in s.rows && a.Found? && a.version.projectId == s.rows[id].projectId
    ensures ProjectFree(s, id, a)
  {
    forall k | k in s.rows && k != id && s.rows[k].miniverse == s.rows[id].miniverse
      ensures s.rows[k].projectId != a.version.projectId
    {
      assert OtherProject(s, k, id);
    }
  }

  lemma UpdateKeepsSound(owner: Owner, s: State, id: ModId, a: Answer)
    requires Sound(owner, s) && id in s.rows && a.Found? && Genuine(owner, a.version.id, a)
    requires ProjectFree(s, id, a) && Update(s, id, a).ok
    ensures Sound(owner, Update(s, id, a).state)
  {
    var s' := Update(s, id, a).state;
    FileNameIsNamed(a.project, a.version);
    forall k | k in s'.rows ensures RowFits(owner, s', k) {
      assert RowFits(owner, s, k);
      if k != id && s.rows[k].miniverse == s.rows[id].miniverse {
        RowsHaveOwnFiles(owner, s, id, k);
        OwnNameStays(owner, s, id, k, a);
      }
    }
    forall k, other | k in s'.rows && other in s'.rows && k != other ensures OtherProject(s', k, other) {
      assert OtherProject(s, k, other);
    }
  }

  /** The new file of one row is not the file of another one. */
  lemma OwnNameStays(owner: Owner, s: State, id: ModId, k: ModId, a: Answer)
    requires Sound(owner, s) && id in s.rows && k in s.rows && k != id && s.rows[k].miniverse == s.rows[id].miniverse
    requires a.Found? && Genuine(owner, a.version.id, a) && ProjectFree(s, id, a)
    ensures FileName(a.project, a.version) != s.rows[k].fileName
  {
    FileNameIsNamed(a.project, a.version);
    assert RowFits(owner, s, k);
    if FileName(a.project, a.version) == s.rows[k].fileName {
      NameDeterminesVersion(s.rows[k].fileName, a.version.id, s.rows[k].versionId);
      assert false;
    }
  }

  /** An update keeps rows and files sound exactly when the platform gives no answer, so that nothing is touched, or
      the new file can be put in the folder and no other mod of the miniverse is of the new version's project. Else
      the old file is gone for a row that names it, or two rows are of one project. */
  lemma UpdateKeepsSoundExactlyWhen(owner: Owner, s: State, id: ModId, a: Answer)
    requires Sound(owner, s) && id in s.rows && (a.Found? ==> Genuine(owner, a.version.id, a))
    ensures Sound(owner, Update(s, id, a).state) <==> a.Unavailable? || (Installable(a) && ProjectFree(s, id, a))
  {
    var s' := Update(s, id, a).state;
    if a.Found? && Installable(a) {
      if ProjectFree(s, id, a) {
        UpdateKeepsSound(owner, s, id, a);
      } else {
        var k :| k in s.rows && k != id && s.rows[k].miniverse == s.rows[id].miniverse && s.rows[k].projectId == a.version.projectId;
        assert !OtherProject(s', k, id);
      }
    } else if a.Found? {
      assert !RowFits(owner, s', id);
    }
  }

  /** An install of a version that cannot be fetched, of a project the miniverse has: the row stays, its file is
      gone. */
  lemma UnfetchedUpdateLosesFile() returns (owner: Owner, s: State, id: ModId, a: Answer)
    ensures Sound(owner, s) && id in s.rows && a.Found? && Genuine(owner, a.version.id, a)
    ensures var s' := Update(s, id, a).state;
            !Sound(owner, s') && Installs(s, "m", "2", a, Update(s, id, a)) && id in s'.rows && (s'.rows[id].miniverse, s'.rows[id].fileName) !in s'.files
  {
    owner := _ => "sodium";
    id := "1";
    var project := Project("sodium", "sodium");
    var installed := ModVersion("A", "sodium", "1", 0, [], ReleaseChannel, []);
    var name := FileName(project, installed);
    s := State(map[id := ModRow("m", "sodium", "A", "sodium", name)], map[("m", name) := "A"]);
    a := Found(installed.(id := "B", number := "2", files := [VersionFile("sodium.jar", true)]), project, false);
    FileNameIsNamed(project, installed);
    assert RowFits(owner, s, id) && IsRowOf(s, id, "m", "sodium");
    UpdateKeepsSoundExactlyWhen(owner, s, id, a);
  }

  lemma AddKeepsSound(owner: Owner, s: State, m: MiniId, newId: ModId, a: Answer)
    requires Sound(owner, s) && newId !in s.rows && a.Found? && Genuine(owner, a.version.id, a)
    requires (forall id :: !IsRowOf(s, id, m, a.project.id)) && Add(s, m, newId, a).ok
    ensures Sound(owner, Add(s, m, newId, a).state)
  {
    var s' := Add(s, m, newId, a).state;
    var name := FileName(a.project, a.version);
    FileNameIsNamed(a.project, a.version);
    forall k | k in s'.rows ensures RowFits(owner, s', k) {
      if k != newId {
        assert RowFits(owner, s, k) && !IsRowOf(s, k, m, a.project.id);
        if s.rows[k].miniverse == m && s.rows[k].fileName == name {
          NameDeterminesVersion(name, a.version.id, s.rows[k].versionId);
          assert false;
        }
      }
    }
    forall k, other | k in s'.rows && other in s'.rows && k != other ensures OtherProject(s', k, other) {
      if k != newId && other != newId {
        assert OtherProject(s, k, other);
      } else {
        assert !IsRowOf(s, if k == newId then other else k, m, a.project.id);
      }
    }
  }

  lemma InstallKeepsSound(owner: Owner, s: State, m: MiniId, newId: ModId, a: Answer, done: Outcome)
    requires Sound(owner, s) && newId !in s.rows && (a.Found? ==> Genuine(owner, a.version.id, a))
    requires Installs(s, m, newId, a, done) && done.ok
    ensures Sound(owner, done.state)
  {
    if exists id :: IsRowOf(s, id, m, a.project.id) {
      var id :| IsRowOf(s, id, m, a.project.id) && done == Update(s, id, a);
      OwnProjectIsFree(owner, s, id, a);
      UpdateKeepsSound(owner, s, id, a);
    } else {
      AddKeepsSound(owner, s, m, newId, a);
    }
  }

  lemma OneRowOfProject(owner: Owner, s: State, m: MiniId, project: string, id: ModId, other: ModId)
    requires Sound(owner, s) && IsRowOf(s, id, m, project) && IsRowOf(s, other, m, project)
    ensures id == other
  {
    assert id == other || OtherProject(s, id, other);
  }

  /** An install that returns leaves the miniverse with exactly one row of the project, at the version asked for, and
      every other row as it was. */
  lemma InstallIsExact(owner: Owner, s: State, m: MiniId, newId: ModId, a: Answer, done: Outcome) returns (id: ModId)
    requires Sound(owner, s) && newId !in s.rows && (a.Found? ==> Genuine(owner, a.version.id, a))
    requires Installs(s, m, newId, a, done) && done.ok
    ensures a.Found? && IsRowOf(done.state, id, m, a.project.id) && done.state.rows[id].versionId == a.version.id
    ensures forall k :: IsRowOf(done.state, k, m, a.project.id) ==> k == id
    ensures forall k | k in s.rows && k != id :: k in done.state.rows && done.state.rows[k] == s.rows[k]
    ensures done.state.rows.Keys == s.rows.Keys + {id}
  {
    InstallKeepsSound(owner, s, m, newId, a, done);
    if exists k :: IsRowOf(s, k, m, a.project.id) {
      id :| IsRowOf(s, id, m, a.project.id) && done == Update(s, id, a);
    } else {
      id := newId;
    }
    forall k | IsRowOf(done.state, k, m, a.project.id) ensures k == id {
      OneRowOfProject(owner, done.state, m, a.project.id, k, id);
    }
  }

  lemma UninstallKeepsSound(owner: Owner, s: State, id: ModId)
    requires Sound(owner, s) && id in s.rows
    ensures Sound(owner, Uninstall(s, id))
    ensures id !in Uninstall(s, id).rows && (s.rows[id].miniverse, s.rows[id].fileName) !in Uninstall(s, id).files
  {
    var s' := Uninstall(s, id);
    forall k | k in s'.rows ensures RowFits(owner, s', k) {
      assert RowFits(owner, s, k);
      if s.rows[k].miniverse == s.rows[id].miniverse {
        RowsHaveOwnFiles(owner, s, id, k);
      }
    }
    forall k, other | k in s'.rows && other in s'.rows && k != other ensures OtherProject(s', k, other) {
      assert OtherProject(s, k, other);
    }
  }

  /** What can be asked of an upgrade: the offered updates come from the platform's lists. */
  predicate Upgradable(s: State, mods: seq<ModId>) {
    forall i | 0 <= i < |mods| :: mods[i] in s.rows
  }

  lemma UpdatesAreUsable(s: State, mods: seq<ModId>, list: Listing, game: string)
    requires Upgradable(s, mods)
    ensures var updates := UpdatesFor(s.rows, mods, list, game);
            forall i | 0 <= i < |mods| :: mods[i] in updates && (updates[mods[i]].status == Available ==> |updates[mods[i]].versions| == 1)
  {
    forall i | 0 <= i < |mods|
      ensures UpdateFor(list, s.rows[mods[i]].projectId, s.rows[mods[i]].versionId, game).status == Available ==>
              |UpdateFor(list, s.rows[mods[i]].projectId, s.rows[mods[i]].versionId, game).versions| == 1
    {
      UpdateIsNewestEligible(list, s.rows[mods[i]].projectId, s.rows[mods[i]].versionId, game);
    }
  }

  /** The mods part of a game version update. */
  function UpgradeTo(s: State, mods: seq<ModId>, list: Listing, details: Details, game: string): Outcome
    requires Upgradable(s, mods)
  {
    UpdatesAreUsable(s, mods, list, game);
    UpgradeAll(s, mods, UpdatesFor(s.rows, mods, list, game), details)
  }

  /** An available update is for the same project and lists the game version. */
  lemma AvailableListsGame(owner: Owner, list: Listing, details: Details, project: string, installed: string, game: string)
    requires GenuineListing(owner, list, details) && UpdateFor(list, project, installed, game).status == Available
    ensures var info := UpdateFor(list, project, installed, game);
            && |info.versions| == 1 && owner(info.versions[0]) == project
            && (details(info.versions[0]).Found? ==> game in details(info.versions[0]).version.gameVersions)
  {
    UpdateIsNewestEligible(list, project, installed, game);
    var info, vs := UpdateFor(list, project, installed, game), Considered(list, project, game);
    var v :| Offers(info, v, vs.value, game, installed);
    assert v in vs.value;
  }

  /** A row after an upgrade: at the version available for it if there is one, else as it was. */
  predicate AtOffered(before: ModRow, after: ModRow, info: UpdateInfo) {
    && after.miniverse == before.miniverse && after.projectId == before.projectId
    && if info.status == Available then info.versions != [] && after.versionId == info.versions[0] else after == before
  }

  /** The updates offered for the mods belong to the mods' projects. */
  ghost predicate OwnUpdates(owner: Owner, s: State, mods: seq<ModId>, updates: map<ModId, UpdateInfo>) {
    && Upgradable(s, mods)
    && forall i | 0 <= i < |mods| ::
         mods[i] in updates
         && (updates[mods[i]].status == Available ==>
               updates[mods[i]].versions != [] && owner(updates[mods[i]].versions[0]) == s.rows[mods[i]].projectId)
  }

  lemma {:induction false} UpgradeAllOffers(owner: Owner, s: State, mods: seq<ModId>, updates: map<ModId, UpdateInfo>, details: Details, id: ModId)
    requires GenuineDetails(owner, details) && OwnUpdates(owner, s, mods, updates) && id in s.rows
    requires UpgradeAll(s, mods, updates, details).ok
    ensures var row := UpgradeAll(s, mods, updates, details).state.rows[id];
            if id in mods then AtOffered(s.rows[id], row, updates[id]) else row == s.rows[id]
  {
    if mods != [] {
      var n := |mods| - 1;
      var front, last := mods[..n], mods[n];
      assert id in mods <==> id in front || id == last by { assert mods == front + [last]; }
      UpgradeAllOffers(owner, s, front, updates, details, id);
      if updates[last].status == Available && last == id {
        assert Genuine(owner, updates[id].versions[0], details(updates[id].versions[0]));
      }
    }
  }

  lemma {:induction false} UpgradeAllKeepsSound(owner: Owner, s: State, mods: seq<ModId>, updates: map<ModId, UpdateInfo>, details: Details)
    requires Sound(owner, s) && GenuineDetails(owner, details) && OwnUpdates(owner, s, mods, updates)
    requires UpgradeAll(s, mods, updates, details).ok
    ensures Sound(owner, UpgradeAll(s, mods, updates, details).state)
  {
    if mods != [] {
      var n := |mods| - 1;
      var front, last := mods[..n], mods[n];
      var mid := UpgradeAll(s, front, updates, details);
      UpgradeAllKeepsSound(owner, s, front, updates, details);
      if updates[last].status == Available {
        var asked := updates[last].versions[0];
        assert Genuine(owner, asked, details(asked));
        UpgradeAllOffers(owner, s, front, updates, details, last);
        OwnProjectIsFree(owner, mid.state, last, details(asked));
        UpdateKeepsSound(owner, mid.state, last, details(asked));
      }
    }
  }

  /** The platform does not answer about the version offered for the mod. */
  predicate Unanswered(updates: map<ModId, UpdateInfo>, details: Details, id: ModId) {
    id in updates && updates[id].versions != [] && details(updates[id].versions[0]).Unavailable?
  }

  ghost predicate FirstFailing(mods: seq<ModId>, updates: map<ModId, UpdateInfo>, details: Details, i: int) {
    && 0 <= i < |mods| && !UpdateWorks(updates, details, mods[i])
    && forall j | 0 <= j < i :: UpdateWorks(updates, details, mods[j])
  }

  /** The first offered update that does not work, if there is one, is not answered at all. */
  ghost predicate NothingLost(mods: seq<ModId>, updates: map<ModId, UpdateInfo>, details: Details) {
    forall i | FirstFailing(mods, updates, details, i) :: Unanswered(updates, details, mods[i])
  }

  lemma NothingLostStep(mods: seq<ModId>, updates: map<ModId, UpdateInfo>, details: Details)
    requires mods != []
    ensures var n := |mods| - 1;
            NothingLost(mods, updates, details) <==>
            if forall k | k in mods[..n] :: UpdateWorks(updates, details, k)
            then UpdateWorks(updates, details, mods[n]) || Unanswered(updates, details, mods[n])
            else NothingLost(mods[..n], updates, details)
  {
    var n := |mods| - 1;
    var front := mods[..n];
    if forall k | k in front :: UpdateWorks(updates, details, k) {
      forall j | 0 <= j < n ensures UpdateWorks(updates, details, mods[j]) {
        assert front[j] in front;
      }
      assert forall i | FirstFailing(mods, updates, details, i) :: i == n;
      assert FirstFailing(mods, updates, details, n) <==> !UpdateWorks(updates, details, mods[n]);
    } else {
      var k :| k in front && !UpdateWorks(updates, details, k);
      var j :| 0 <= j < n && front[j] == k;
      forall i ensures FirstFailing(front, updates, details, i) <==> FirstFailing(mods, updates, details, i) {
        if 0 <= i < n {
          assert forall l | 0 <= l <= i :: front[l] == mods[l];
        }
        assert mods[j] == k;
      }
    }
  }

  /** An upgrade, whether it returns or fails partway, keeps rows and files sound exactly when the first update that
      does not work is not answered at all: else the old file of that mod is gone. */
  lemma {:induction false} UpgradeAllKeepsSoundExactlyWhen(owner: Owner, s: State, mods: seq<ModId>, updates: map<ModId, UpdateInfo>, details: Details)
    requires Sound(owner, s) && GenuineDetails(owner, details) && OwnUpdates(owner, s, mods, updates)
    ensures Sound(owner, UpgradeAll(s, mods, updates, details).state) <==> NothingLost(mods, updates, details)
  {
    if mods != [] {
      var n := |mods| - 1;
      var front, last := mods[..n], mods[n];
      var mid := UpgradeAll(s, front, updates, details);
      UpgradeAllKeepsSoundExactlyWhen(owner, s, front, updates, details);
      UpgradeAllSucceedsExactlyWhen(s, front, updates, details);
      NothingLostStep(mods, updates, details);
      if mid.ok {
        UpgradeAllKeepsSound(owner, s, front, updates, details);
        if updates[last].status == Available {
          var a := details(updates[last].versions[0]);
          assert Genuine(owner, updates[last].versions[0], a);
          UpgradeAllOffers(owner, s, front, updates, details, last);
          if a.Found? {
            OwnProjectIsFree(owner, mid.state, last, a);
          }
          UpdateKeepsSoundExactlyWhen(owner, mid.state, last, a);
        }
      }
    }
  }

  /** The updates listed for mods are of the mods' projects. */
  lemma ListedAreOwn(owner: Owner, s: State, mods: seq<ModId>, list: Listing, details: Details, game: string)
    requires GenuineListing(owner, list, details) && Upgradable(s, mods)
    ensures OwnUpdates(owner, s, mods, UpdatesFor(s.rows, mods, list, game))
  {
    var updates := UpdatesFor(s.rows, mods, list, game);
    UpdatesAreUsable(s, mods, list, game);
    forall i | 0 <= i < |mods| && updates[mods[i]].status == Available
      ensures owner(updates[mods[i]].versions[0]) == s.rows[mods[i]].projectId
    {
      AvailableListsGame(owner, list, details, s.rows[mods[i]].projectId, s.rows[mods[i]].versionId, game);
    }
  }

  /** An upgrade that returns keeps the rows and files sound, takes every available update, and leaves each mod at a
      version that lists the target game version or at the version it had. */
  lemma UpgradeListsGame(owner: Owner, s: State, mods: seq<ModId>, list: Listing, details: Details, game: string)
    requires Sound(owner, s) && GenuineDetails(owner, details) && GenuineListing(owner, list, details)
    requires Upgradable(s, mods) && UpgradeTo(s, mods, list, details, game).ok
    ensures var s' := UpgradeTo(s, mods, list, details, game).state;
            && Sound(owner, s') && s'.rows.Keys == s.rows.Keys
            && (forall id | id in s.rows ::
                  var info := UpdateFor(list, s.rows[id].projectId, s.rows[id].versionId, game);
                  if id in mods then AtOffered(s.rows[id], s'.rows[id], info) else s'.rows[id] == s.rows[id])
            && forall id | id in s.rows ::
                 || s'.rows[id].versionId == s.rows[id].versionId
                 || (details(s'.rows[id].versionId).Found? && game in details(s'.rows[id].versionId).version.gameVersions)
  {
    var updates := UpdatesFor(s.rows, mods, list, game);
    ListedAreOwn(owner, s, mods, list, details, game);
    UpgradeAllKeepsSound(owner, s, mods, updates, details);
    var s' := UpgradeTo(s, mods, list, details, game).state;
    forall id | id in s.rows
      ensures var info := UpdateFor(list, s.rows[id].projectId, s.rows[id].versionId, game);
              if id in mods then AtOffered(s.rows[id], s'.rows[id], info) else s'.rows[id] == s.rows[id]
    {
      UpgradeAllOffers(owner, s, mods, updates, details, id);
    }
    forall id | id in s.rows && s'.rows[id].versionId != s.rows[id].versionId
      ensures details(s'.rows[id].versionId).Found? && game in details(s'.rows[id].versionId).version.gameVersions
    {
      UpgradeAllSucceedsExactlyWhen(s, mods, updates, details);
      assert UpdateWorks(updates, details, id);
      assert id in mods && AtOffered(s.rows[id], s'.rows[id], updates[id]);
      AvailableListsGame(owner, list, details, s.rows[id].projectId, s.rows[id].versionId, game);
    }
  }

  /* ---- runs ---- */

  datatype Request =
    | Install(miniverse: MiniId, newId: ModId, version: string)
    | Change(id: ModId, version: string)
    | Remove(id: ModId)
    | Upgrade(mods: seq<ModId>, game: string)

  /** The request returns normally, going from `s` to `s'`. */
  ghost predicate Returns(s: State, r: Request, s': State, list: Listing, details: Details) {
    match r
    case Install(m, newId, version) => newId !in s.rows && Installs(s, m, newId, details(version), Outcome(s', true))
    case Change(id, version) => id in s.rows && Update(s, id, details(version)) == Outcome(s', true)
    case Remove(id) => id in s.rows && s' == Uninstall(s, id)
    case Upgrade(mods, game) => Upgradable(s, mods) && UpgradeTo(s, mods, list, details, game) == Outcome(s', true)
  }

  /** A mod is changed to a version of a project no other mod of its miniverse has. */
  ghost predicate KeepsProjects(s: State, r: Request, details: Details) {
    r.Change? && r.id in s.rows && details(r.version).Found? ==> ProjectFree(s, r.id, details(r.version))
  }

  /** A run: the states before, between and after the requests. The platform may answer differently each time. */
  ghost predicate IsRun(states: seq<State>, requests: seq<Request>, lists: seq<Listing>, details: seq<Details>) {
    && |states| == |requests| + 1 && |lists| == |details| == |requests|
    && forall i | 0 <= i < |requests| :: Returns(states[i], requests[i], states[i + 1], lists[i], details[i])
  }

  /** After any run of installs, updates, uninstalls and upgrades that return normally, every row has its own file holding its
      version, and a miniverse has at most one row for a project. */
  lemma {:induction false} RunKeepsSound(owner: Owner, states: seq<State>, requests: seq<Request>, lists: seq<Listing>, details: seq<Details>)
    requires IsRun(states, requests, lists, details) && Sound(owner, states[0])
    requires forall i | 0 <= i < |requests| :: GenuineDetails(owner, details[i]) && GenuineListing(owner, lists[i], details[i])
    requires forall i | 0 <= i < |requests| :: KeepsProjects(states[i], requests[i], details[i])
    ensures Sound(owner, states[|requests|])
  {
    if requests != [] {
      var n := |requests| - 1;
      RunKeepsSound(owner, states[..n + 1], requests[..n], lists[..n], details[..n]);
      assert Returns(states[n], requests[n], states[n + 1], lists[n], details[n]);
      match requests[n]
      case Install(m, newId, version) =>
        assert Genuine(owner, version, details[n](version));
        InstallKeepsSound(owner, states[n], m, newId, details[n](version), Outcome(states[n + 1], true));
      case Change(id, version) =>
        assert Genuine(owner, version, details[n](version)) && KeepsProjects(states[n], requests[n], details[n]);
        UpdateKeepsSound(owner, states[n], id, details[n](version));
      case Remove(id) => UninstallKeepsSound(owner, states[n], id);
      case Upgrade(mods, game) => UpgradeListsGame(owner, states[n], mods, lists[n], details[n], game);
    }
  }

  /* ---- runs of requests that may fail ---- */

  /** The request is handled, however it ends. */
  ghost predicate LeadsTo(s: State, r: Request, s': State, list: Listing, details: Details) {
    match r
    case Install(m, newId, version) => newId !in s.rows && exists ok :: Installs(s, m, newId, details(version), Outcome(s', ok))
    case Change(id, version) => id in s.rows && s' == Update(s, id, details(version)).state
    case Remove(id) => id in s.rows && s' == Uninstall(s, id)
    case Upgrade(mods, game) => Upgradable(s, mods) && s' == UpgradeTo(s, mods, list, details, game).state
  }

  ghost predicate IsHistory(states: seq<State>, requests: seq<Request>, lists: seq<Listing>, details: seq<Details>) {
    && |states| == |requests| + 1 && |lists| == |details| == |requests|
    && forall i | 0 <= i < |requests| :: LeadsTo(states[i], requests[i], states[i + 1], lists[i], details[i])
  }

  /** What a request needs, in the state it meets, to keep rows and files sound. */
  ghost predicate KeepsFiles(s: State, r: Request, list: Listing, details: Details) {
    match r
    case Install(m, _, version) =>
      var a := details(version);
      a.Unavailable? || Installable(a) || forall id :: !IsRowOf(s, id, m, a.project.id)
    case Change(id, version) =>
      var a := details(version);
      a.Unavailable? || (Installable(a) && (id in s.rows ==> ProjectFree(s, id, a)))
    case Remove(_) => true
    case Upgrade(mods, game) => Upgradable(s, mods) ==> NothingLost(mods, UpdatesFor(s.rows, mods, list, game), details)
  }

  /** An install keeps rows and files sound exactly when the platform gives no answer, or the new file can be put in
      the folder, or there was no mod of the project whose file could be lost. */
  lemma InstallKeepsSoundExactlyWhen(owner: Owner, s: State, m: MiniId, newId: ModId, a: Answer, done: Outcome)
    requires Sound(owner, s) && newId !in s.rows && (a.Found? ==> Genuine(owner, a.version.id, a))
    requires Installs(s, m, newId, a, done)
    ensures Sound(owner, done.state) <==>
            a.Unavailable? || Installable(a) || forall id :: !IsRowOf(s, id, m, a.project.id)
  {
    if a.Found? && exists id :: IsRowOf(s, id, m, a.project.id) {
      var id :| IsRowOf(s, id, m, a.project.id) && done == Update(s, id, a);
      OwnProjectIsFree(owner, s, id, a);
      UpdateKeepsSoundExactlyWhen(owner, s, id, a);
    } else if done.ok {
      InstallKeepsSound(owner, s, m, newId, a, done);
    }
  }

  lemma StepKeepsSoundExactlyWhen(owner: Owner, s: State, r: Request, s': State, list: Listing, details: Details)
    requires Sound(owner, s) && LeadsTo(s, r, s', list, details)
    requires GenuineDetails(owner, details) && GenuineListing(owner, list, details)
    ensures Sound(owner, s') <==> KeepsFiles(s, r, list, details)
  {
    match r
    case Install(m, newId, version) =>
      assert Genuine(owner, version, details(version));
      var ok :| Installs(s, m, newId, details(version), Outcome(s', ok));
      InstallKeepsSoundExactlyWhen(owner, s, m, newId, details(version), Outcome(s', ok));
    case Change(id, version) =>
      assert Genuine(owner, version, details(version));
      UpdateKeepsSoundExactlyWhen(owner, s, id, details(version));
    case Remove(id) => UninstallKeepsSound(owner, s, id);
    case Upgrade(mods, game) =>
      ListedAreOwn(owner, s, mods, list, details, game);
      UpgradeAllKeepsSoundExactlyWhen(owner, s, mods, UpdatesFor(s.rows, mods, list, game), details);
  }

  /** In every run of installs, updates, uninstalls and upgrades, however they end: every row has its own file holding
      its version and a miniverse has at most one row for a project, in every state, exactly when each request has what
      it needs in the state it meets. */
  lemma RunIsSoundExactlyWhen(owner: Owner, states: seq<State>, requests: seq<Request>, lists: seq<Listing>, details: seq<Details>)
    requires IsHistory(states, requests, lists, details) && Sound(owner, states[0])
    requires forall i | 0 <= i < |requests| :: GenuineDetails(owner, details[i]) && GenuineListing(owner, lists[i], details[i])
    ensures (forall i | 0 <= i < |states| :: Sound(owner, states[i])) <==>
            (forall i | 0 <= i < |requests| :: KeepsFiles(states[i], requests[i], lists[i], details[i]))
  {
    var holds := seq(|states|, i requires 0 <= i < |states| => Sound(owner, states[i]));
    var keeps := seq(|requests|, i requires 0 <= i < |requests| => KeepsFiles(states[i], requests[i], lists[i], details[i]));
    forall i | 0 <= i < |requests| ensures holds[i] ==> (holds[i + 1] <==> keeps[i]) {
      assert LeadsTo(states[i], requests[i], states[i + 1], lists[i], details[i]);
      if Sound(owner, states[i]) {
        StepKeepsSoundExactlyWhen(owner, states[i], requests[i], states[i + 1], lists[i], details[i]);
      }
    }
    HoldsThroughout(holds, keeps);
    assert forall i | 0 <= i < |states| :: holds[i] == Sound(owner, states[i]);
    assert forall i | 0 <= i < |requests| :: keeps[i] == KeepsFiles(states[i], requests[i], lists[i], details[i]);
  }
}
