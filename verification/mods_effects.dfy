/** What each operation on mods does to rows and files, which file it takes, and which version it chooses. */
module ModsEffects {
  import opened Text
  import opened Paths
  import opened PathLaws
  import opened Mods
  import opened ModsSafety

  /* ---- rows and files ---- */

  /** The row and the file of an uninstalled mod are gone; every other row and file is as it was. */
  lemma UninstallIsExact(s: State, id: ModId, k: ModId, f: (MiniId, string))
    requires id in s.rows
    ensures var s', own := Uninstall(s, id), (s.rows[id].miniverse, s.rows[id].fileName);
            && id !in s'.rows && own !in s'.files
            && (k != id ==> (k in s'.rows <==> k in s.rows) && (k in s.rows ==> s'.rows[k] == s.rows[k]))
            && (f != own ==> (f in s'.files <==> f in s.files) && (f in s.files ==> s'.files[f] == s.files[f]))
  {
  }

  /** What an update leaves, for each answer of the platform. */
  lemma UpdateIsExact(s: State, id: ModId, a: Answer, k: ModId, f: (MiniId, string))
    requires id in s.rows
    ensures var done, row := Update(s, id, a), s.rows[id];
            var own := (row.miniverse, row.fileName);
            && (done.ok <==> Installable(a))
            && (a.Unavailable? ==> done.state == s)
            && (a.Found? && !Installable(a) ==>
                  done.state.rows == s.rows && own !in done.state.files
                  && (f != own ==> (f in done.state.files <==> f in s.files) && (f in s.files ==> done.state.files[f] == s.files[f])))
            && (Installable(a) ==>
                  var row', name := done.state.rows[id], (row.miniverse, FileName(a.project, a.version));
                  && row' == ModRow(row.miniverse, row.slug, a.version.id, a.version.projectId, FileName(a.project, a.version))
                  && done.state.rows.Keys == s.rows.Keys && (k in s.rows && k != id ==> done.state.rows[k] == s.rows[k])
                  && name in done.state.files && done.state.files[name] == a.version.id
                  && (own != name ==> own !in done.state.files)
                  && (f != own && f != name ==>
                        (f in done.state.files <==> f in s.files) && (f in s.files ==> done.state.files[f] == s.files[f])))
  {
  }

  /** What adding a mod leaves. */
  lemma AddIsExact(s: State, m: MiniId, newId: ModId, a: Answer, k: ModId, f: (MiniId, string))
    ensures var done := Add(s, m, newId, a);
            && (done.ok <==> Installable(a)) && (!done.ok ==> done.state == s)
            && (done.ok ==>
                  var name := (m, FileName(a.project, a.version));
                  && newId in done.state.rows
                  && done.state.rows[newId] == ModRow(m, a.project.slug, a.version.id, a.version.projectId, FileName(a.project, a.version))
                  && (k != newId ==> (k in done.state.rows <==> k in s.rows) && (k in s.rows ==> done.state.rows[k] == s.rows[k]))
                  && name in done.state.files && done.state.files[name] == a.version.id
                  && (f != name ==> (f in done.state.files <==> f in s.files) && (f in s.files ==> done.state.files[f] == s.files[f])))
  {
  }

  /** An install goes through exactly when the version can be put in the folder; with no answer it changes nothing,
      and neither does one that fails for a project the miniverse has no mod of. */
  lemma InstallReturnsExactlyWhen(s: State, m: MiniId, newId: ModId, a: Answer, done: Outcome)
    requires Installs(s, m, newId, a, done)
    ensures done.ok <==> Installable(a)
    ensures a.Unavailable? || (!done.ok && forall id :: !IsRowOf(s, id, m, a.project.id)) ==> done.state == s
  {
  }

  /* ---- the file taken ---- */

  predicate FirstPrimary(files: seq<VersionFile>, i: int, name: string) {
    0 <= i < |files| && files[i] == VersionFile(name, true) && forall j | 0 <= j < i :: !files[j].primary
  }

  /** The file taken is the first one marked primary. */
  lemma {:induction false} PrimaryIsFirst(files: seq<VersionFile>, name: string)
    ensures PrimaryFile(files) == Some(name) <==> exists i :: FirstPrimary(files, i, name)
    ensures PrimaryFile(files).None? <==> forall i | 0 <= i < |files| :: !files[i].primary
  {
    if files != [] {
      var rest := files[1..];
      PrimaryIsFirst(rest, name);
      assert forall i | 0 <= i < |rest| :: rest[i] == files[i + 1];
      if files[0].primary {
        assert FirstPrimary(files, 0, files[0].filename);
      } else {
        if i :| FirstPrimary(rest, i, name) {
          assert FirstPrimary(files, i + 1, name) by {
            assert forall j | 1 <= j <= i :: files[j] == rest[j - 1];
          }
        }
        if i :| FirstPrimary(files, i, name) {
          assert FirstPrimary(rest, i - 1, name);
        }
      }
    }
  }

  /** The name of a mod's file is the slug, the version's number and its id, with dashes. */
  lemma FileNameExample(files: seq<VersionFile>)
    ensures FileName(Project("p", "sodium"), ModVersion("AbC", "p", "0.5", 0, [], ReleaseChannel, files)) == "sodium-0.5-AbC.jar"
  {
  }

  /** A fetched version can be installed exactly when its primary file, with a plain name, ends in ".jar", and the new
      name is one component. */
  lemma InstallableExactlyWhen(a: Answer, front: string, extension: string)
    requires a.Found? && '.' !in extension && front != "" && extension != "" && '/' !in front && '/' !in extension
    requires PrimaryFile(a.version.files) == Some(front + "." + extension)
    ensures Installable(a) <==> a.fetched && extension == "jar" && '/' !in FileName(a.project, a.version)
  {
    var name := front + "." + extension;
    StemAndSuffix(front, extension);
    SplitFree(name, '/');
    assert |name| >= 3;
    KeptOfKept([name]);
    assert ParsePath(name).parts == [name];
    assert Suffix(name) == "." + extension;
    assert "." + extension == ".jar" <==> extension == "jar" by {
      assert ("." + extension)[1..] == extension && ".jar"[1..] == "jar";
    }
  }

  /** Without a primary file nothing is installed. */
  lemma NoPrimaryIsNotInstallable(a: Answer)
    requires a.Found? && forall i | 0 <= i < |a.version.files| :: !a.version.files[i].primary
    ensures !Installable(a)
  {
    PrimaryIsFirst(a.version.files, "");
  }

  /* ---- the versions considered ---- */

  /** The versions for the game version are considered if there are any; all versions are asked for exactly when there
      are none; a query that raises leaves nothing to consider. */
  lemma ConsideredExactlyWhen(list: Listing, project: string, game: string)
    ensures match list(project, Some(game))
            case None => Considered(list, project, game).None?
            case Some(direct) =>
              && (direct != [] ==> Considered(list, project, game) == Some(direct))
              && (direct == [] ==> Considered(list, project, game) == list(project, None))
  {
  }

  /** Of the versions considered none is compatible exactly when none lists the game version and none is installed; a
      version offered lists the game version or is the installed one. */
  lemma CompatibleExactlyWhen(list: Listing, project: string, installed: string, game: string)
    ensures var info, vs := UpdateFor(list, project, installed, game), Considered(list, project, game);
            && (info.status == Failed <==> vs == None || vs == Some([]))
            && (info.status == NoCompatible <==>
                  vs.Some? && vs.value != [] && forall v | v in vs.value :: game !in v.gameVersions && v.id != installed)
            && (info.status == UpToDate ==> info.versions == [installed])
            && (info.status == Available ==> |info.versions| == |info.gameVersions| == 1 && info.versions != [installed] && game in info.gameVersions[0])
  {
    UpdateIsNewestEligible(list, project, installed, game);
  }

  /** An automatic install asks for all versions only if there are none for the game version and it may retry. */
  lemma ChoicesExactlyWhen(list: Listing, project: string, game: string, retry: bool)
    ensures match list(project, Some(game))
            case None => Choices(list, project, game, retry).None?
            case Some(direct) =>
              && (direct != [] || !retry ==> Choices(list, project, game, retry) == Some(direct))
              && (direct == [] && retry ==> Choices(list, project, game, retry) == list(project, None))
  {
  }

  /* ---- among versions of one date the first listed ---- */

  /** The first listed of the newest eligible versions. */
  function FirstNewest(vs: seq<ModVersion>, game: string, installed: string): Option<ModVersion> {
    if vs == [] then None
    else
      var rest := FirstNewest(vs[1..], game, installed);
      if Eligible(vs[0], game, installed) && (rest.None? || vs[0].published >= rest.value.published) then Some(vs[0]) else rest
  }

  lemma {:induction false} ScanOfInsert(v: ModVersion, sorted: seq<ModVersion>, game: string, installed: string)
    requires SortedByDate(sorted)
    ensures var before := Scan(sorted, game, installed);
            Scan(InsertByDate(v, sorted), game, installed) ==
            if Eligible(v, game, installed) && (before.None? || v.published >= before.value.published) then Some(v) else before
  {
    if sorted != [] {
      ScanFindsNewest(sorted, game, installed);
      if v.published >= sorted[0].published {
        var before := Scan(sorted, game, installed);
        assert InsertByDate(v, sorted)[1..] == sorted;
        if before.Some? {
          var i :| 0 <= i < |sorted| && sorted[i] == before.value;
          assert before.value.published <= sorted[0].published;
        }
      } else {
        ScanOfInsert(v, sorted[1..], game, installed);
        assert InsertByDate(v, sorted)[1..] == InsertByDate(v, sorted[1..]);
      }
    }
  }

  /** The version found is the first listed of the newest eligible ones: the sort keeps the order of equal dates. */
  lemma {:induction false} ScanIsFirstNewest(vs: seq<ModVersion>, game: string, installed: string)
    ensures Scan(NewestFirst(vs), game, installed) == FirstNewest(vs, game, installed)
  {
    if vs != [] {
      ScanIsFirstNewest(vs[1..], game, installed);
      NewestFirstSorts(vs[1..]);
      ScanOfInsert(vs[0], NewestFirst(vs[1..]), game, installed);
    }
  }

  /** The ids and the game versions listed are those of the versions, pair by pair. */
  ghost predicate ListsAll(info: UpdateInfo, vs: seq<ModVersion>) {
    && |info.versions| == |info.gameVersions|
    && (forall i | 0 <= i < |info.versions| :: IsListed(info.versions[i], info.gameVersions[i], vs))
    && (forall v | v in vs :: v.id in info.versions)
  }

  ghost predicate IsListed(id: string, games: seq<string>, vs: seq<ModVersion>) {
    exists v :: v in vs && id == v.id && games == v.gameVersions
  }

  lemma IdsAndGames(status: UpdateStatus, sorted: seq<ModVersion>)
    ensures ListsAll(UpdateInfo(status, Ids(sorted), Games(sorted)), sorted)
  {
    forall i | 0 <= i < |sorted| ensures IsListed(Ids(sorted)[i], Games(sorted)[i], sorted) {
      assert sorted[i] in sorted;
    }
    forall v | v in sorted ensures v.id in Ids(sorted) {
      var i :| 0 <= i < |sorted| && sorted[i] == v;
      assert Ids(sorted)[i] == v.id;
    }
  }

  lemma ListsAllOfSame(info: UpdateInfo, sorted: seq<ModVersion>, vs: seq<ModVersion>)
    requires ListsAll(info, sorted) && forall v :: v in sorted <==> v in vs
    ensures ListsAll(info, vs)
  {
    forall i | 0 <= i < |info.versions| ensures IsListed(info.versions[i], info.gameVersions[i], vs) {
      assert IsListed(info.versions[i], info.gameVersions[i], sorted);
    }
  }

  /** What is offered when nothing is eligible: every version returned. */
  lemma NoCompatibleListsAll(list: Listing, project: string, installed: string, game: string)
    requires UpdateFor(list, project, installed, game).status == NoCompatible
    ensures var vs := Considered(list, project, game); vs.Some? && ListsAll(UpdateFor(list, project, installed, game), vs.value)
  {
    var vs := Considered(list, project, game).value;
    NewestFirstSorts(vs);
    IdsAndGames(NoCompatible, NewestFirst(vs));
    ListsAllOfSame(UpdateFor(list, project, installed, game), NewestFirst(vs), vs);
  }
}
