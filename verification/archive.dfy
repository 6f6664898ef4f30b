/** Downloading a selection as an archive, and what extracting that archive gives back. */
module Archive {
  import opened Text
  import opened Paths
  import opened FileTree
  import opened Extraction
  import opened FilesService
  import opened FileSafety

  /** A line of the manifest: the file served and its name in the archive. */
  datatype Entry = Entry(source: Path, zipName: string)

  datatype Download = SingleFile(path: Path) | Zip(manifest: seq<Entry>)

  /** `walk(d)` lists, in any order, the entries strictly below `d`. */
  ghost predicate WalksTree(t: Tree, walk: Path -> seq<Path>) {
    forall d, p :: p in walk(d) <==> p in t && d <= p && p != d
  }

  function RelativeTo(p: Path, parent: Path): Path {
    if parent <= p then p[|parent|..] else p
  }

  function EntryOf(parent: Path, p: Path): Entry {
    Entry(p, Join(RelativeTo(p, parent), '/'))
  }

  function EntriesOf(t: Tree, parent: Path, files: seq<Path>): seq<Entry> {
    if files == [] then []
    else
      var p := files[|files| - 1];
      EntriesOf(t, parent, files[..|files| - 1]) + (if IsFile(t, p) then [EntryOf(parent, p)] else [])
  }

  function PathEntries(t: Tree, walk: Path -> seq<Path>, path: Path): seq<Entry> {
    if IsFile(t, path) then [EntryOf(Parent(path), path)]
    else if IsDir(t, path) then EntriesOf(t, Parent(path), walk(path))
    else []
  }

  function ManifestOf(t: Tree, walk: Path -> seq<Path>, paths: seq<Path>): seq<Entry> {
    if paths == [] then []
    else ManifestOf(t, walk, paths[..|paths| - 1]) + PathEntries(t, walk, paths[|paths| - 1])
  }

  function DownloadOf(t: Tree, walk: Path -> seq<Path>, paths: seq<Path>): Download {
    if |paths| == 1 && IsFile(t, paths[0]) then SingleFile(paths[0]) else Zip(ManifestOf(t, walk, paths))
  }

  method DownloadFiles(fs: FileService, walk: Path -> seq<Path>, paths: seq<Path>) returns (r: Download)
    ensures r == DownloadOf(fs.tree, walk, paths)
  {
    if |paths| == 1 {
      if IsFile(fs.tree, paths[0]) {
        return SingleFile(paths[0]);
      }
    }
    var manifest: seq<Entry> := [];
    for i := 0 to |paths|
      invariant manifest == ManifestOf(fs.tree, walk, paths[..i])
    {
      assert paths[..i + 1][..i] == paths[..i];
      var path := paths[i];
      var parent := Parent(path);
      if IsFile(fs.tree, path) {
        manifest := manifest + [EntryOf(parent, path)];
      } else if IsDir(fs.tree, path) {
        var files := walk(path);
        ghost var before := manifest;
        for j := 0 to |files|
          invariant manifest == before + EntriesOf(fs.tree, parent, files[..j])
        {
          assert files[..j + 1][..j] == files[..j];
          if IsFile(fs.tree, files[j]) {
            manifest := manifest + [EntryOf(parent, files[j])];
          }
        }
        assert files[..|files|] == files;
      }
    }
    assert paths[..|paths|] == paths;
    return Zip(manifest);
  }

  /** The archive built from a manifest: each listed file's content under its name. */
  function ArchiveOf(t: Tree, manifest: seq<Entry>): seq<Member> {
    seq(|manifest|, i requires 0 <= i < |manifest| =>
      Member(manifest[i].zipName, if IsFile(t, manifest[i].source) then t[manifest[i].source].content else ""))
  }

  /* ---- what the manifest lists ---- */

  predicate UnderOne(paths: seq<Path>, p: Path) {
    exists i | 0 <= i < |paths| :: paths[i] <= p
  }

  /** All the selected paths lie in one folder. */
  ghost predicate InFolder(paths: seq<Path>, up: Path) {
    forall i | 0 <= i < |paths| :: paths[i] != [] && Parent(paths[i]) == up
  }

  /** The selected files, by their place below the shared parent. */
  ghost function Selected(t: Tree, paths: seq<Path>, up: Path): set<Path> {
    set p | p in t && IsFile(t, p) && up <= p && UnderOne(paths, p) :: p[|up|..]
  }

  lemma SelectedMeans(t: Tree, paths: seq<Path>, up: Path, rel: Path)
    ensures rel in Selected(t, paths, up) <==> IsFile(t, up + rel) && UnderOne(paths, up + rel)
  {
    var p := up + rel;
    assert p[|up|..] == rel;
    if rel in Selected(t, paths, up) {
      var q :| q in t && IsFile(t, q) && up <= q && UnderOne(paths, q) && rel == q[|up|..];
      assert q == p;
    }
  }

  lemma {:induction false} EntriesAreTheFiles(t: Tree, parent: Path, files: seq<Path>, e: Entry)
    ensures e in EntriesOf(t, parent, files) <==> e.source in files && IsFile(t, e.source) && e == EntryOf(parent, e.source)
  {
    if files != [] {
      EntriesAreTheFiles(t, parent, files[..|files| - 1], e);
      assert files == files[..|files| - 1] + [files[|files| - 1]];
    }
  }

  lemma {:induction false} ManifestListsSelection(t: Tree, walk: Path -> seq<Path>, paths: seq<Path>, up: Path, e: Entry)
    requires WellFormed(t) && WalksTree(t, walk) && InFolder(paths, up)
    ensures e in ManifestOf(t, walk, paths) <==> IsFile(t, e.source) && UnderOne(paths, e.source) && e == EntryOf(up, e.source)
  {
    if paths != [] {
      var n := |paths| - 1;
      var front, path := paths[..n], paths[n];
      UnderLastOrBefore(paths, up, e.source);
      ManifestListsSelection(t, walk, front, up, e);
      PathEntriesAreItsFiles(t, walk, path, e);
    }
  }

  lemma UnderLastOrBefore(paths: seq<Path>, up: Path, p: Path)
    requires paths != [] && InFolder(paths, up)
    ensures var n := |paths| - 1;
            InFolder(paths[..n], up) && (UnderOne(paths, p) <==> UnderOne(paths[..n], p) || paths[n] <= p)
  {
    var n := |paths| - 1;
    assert forall i | 0 <= i < n :: paths[..n][i] == paths[i];
  }

  lemma PathEntriesAreItsFiles(t: Tree, walk: Path -> seq<Path>, path: Path, e: Entry)
    requires WellFormed(t) && WalksTree(t, walk)
    ensures e in PathEntries(t, walk, path) <==>
            IsFile(t, e.source) && path <= e.source && e == EntryOf(Parent(path), e.source)
  {
    if IsDir(t, path) {
      EntriesAreTheFiles(t, Parent(path), walk(path), e);
    } else {
      NothingBelow(t, path);
    }
  }

  /** Two selected entries of one folder are never below one another, so a file is listed below one of them. */
  lemma SelectedPlace(t: Tree, paths: seq<Path>, up: Path, rel: Path)
    requires WellFormed(t) && InFolder(paths, up) && rel in Selected(t, paths, up)
    ensures rel != [] && ValidNames(rel) && IsFile(t, up + rel)
    ensures exists i | 0 <= i < |paths| :: paths[i] == up + [rel[0]]
  {
    SelectedMeans(t, paths, up, rel);
    var i :| 0 <= i < |paths| && paths[i] <= up + rel;
    var path := paths[i];
    assert up <= path && |path| == |up| + 1;
    assert path == up + [Name(path)] && rel[0] == path[|up|];
    assert Attached(t, up + rel);
    assert forall n | n in rel :: n in up + rel;
  }

  /* ---- the archive ---- */

  ghost predicate Describes(members: seq<Member>, t: Tree, up: Path, sel: set<Path>) {
    && (forall m | m in members :: IsListed(m, t, up, sel))
    && (forall rel | rel in sel :: MemberFor(t, up, rel) in members)
  }

  ghost predicate IsListed(m: Member, t: Tree, up: Path, sel: set<Path>) {
    exists rel :: rel in sel && m == MemberFor(t, up, rel)
  }

  function MemberFor(t: Tree, up: Path, rel: Path): Member {
    Member(Join(rel, '/'), if IsFile(t, up + rel) then t[up + rel].content else "")
  }

  lemma ArchiveDescribesSelection(t: Tree, walk: Path -> seq<Path>, paths: seq<Path>, up: Path)
    requires WellFormed(t) && WalksTree(t, walk) && InFolder(paths, up)
    ensures Describes(ArchiveOf(t, ManifestOf(t, walk, paths)), t, up, Selected(t, paths, up))
  {
    var manifest := ManifestOf(t, walk, paths);
    var members, sel := ArchiveOf(t, manifest), Selected(t, paths, up);
    forall m | m in members ensures IsListed(m, t, up, sel) {
      var i :| 0 <= i < |members| && m == members[i];
      var e := manifest[i];
      ManifestListsSelection(t, walk, paths, up, e);
      FileBelowFolder(paths, up, e.source);
      var rel := e.source[|up|..];
      assert up + rel == e.source;
      SelectedMeans(t, paths, up, rel);
      assert members[i] == MemberFor(t, up, rel);
    }
    forall rel | rel in sel ensures MemberFor(t, up, rel) in members {
      SelectedMeans(t, paths, up, rel);
      var e := EntryOf(up, up + rel);
      assert (up + rel)[|up|..] == rel;
      ManifestListsSelection(t, walk, paths, up, e);
      var i :| 0 <= i < |manifest| && manifest[i] == e;
      assert members[i] == MemberFor(t, up, rel);
    }
  }

  lemma FileBelowFolder(paths: seq<Path>, up: Path, p: Path)
    requires InFolder(paths, up) && UnderOne(paths, p)
    ensures up <= p
  {
    var i :| 0 <= i < |paths| && paths[i] <= p;
    assert up <= paths[i];
  }

  /** Where a listed file goes. */
  function Goal(container: Path, strip: bool, rel: Path): Path {
    if strip && rel != [] then container + rel[1..] else container + rel
  }

  lemma MemberGoesToGoal(container: Path, strip: bool, t: Tree, up: Path, rel: Path)
    requires rel != [] && ValidNames(rel)
    ensures PlanOf(container, strip, MemberFor(t, up, rel)) == Put(Goal(container, strip, rel))
  {
    ParseOfWritten(rel);
    JoinStart(rel);
    assert forall n | n in rel[1..] :: n in rel;
    assert ".." !in rel && ".." !in rel[1..] by {
      assert forall n | n in rel :: ValidName(n);
    }
    ResolvePlain(container, rel);
    ResolvePlain(container, rel[1..]);
  }

  /** The selection can be laid out: every file has a place of its own inside the container. */
  ghost predicate Placeable(container: Path, strip: bool, t: Tree, up: Path, sel: set<Path>) {
    && (forall rel | rel in sel :: rel != [] && ValidNames(rel) && IsFile(t, up + rel))
    && (strip ==> forall rel, rel' | rel in sel && rel' in sel :: |rel| >= 2 && rel[0] == rel'[0])
  }

  lemma {:induction false} UniformContent(steps: seq<Step>, p: Path, content: string)
    requires p in FinalFiles(steps) && forall i | 0 <= i < |steps| && steps[i].plan == Put(p) :: steps[i].content == content
    ensures FinalFiles(steps)[p] == content
  {
    var n := |steps| - 1;
    assert steps[n] == steps[n];
    if steps[n].plan != Put(p) {
      assert forall i | 0 <= i < n :: steps[..n][i] == steps[i];
      UniformContent(steps[..n], p, content);
    }
  }

  lemma GoalsDiffer(container: Path, strip: bool, t: Tree, up: Path, sel: set<Path>, rel: Path, rel': Path)
    requires WellFormed(t) && Placeable(container, strip, t, up, sel) && rel in sel && rel' in sel
    requires Goal(container, strip, rel) <= Goal(container, strip, rel')
    ensures rel == rel'
  {
    var k := if strip then 1 else 0;
    assert Goal(container, strip, rel) == container + rel[k..] && Goal(container, strip, rel') == container + rel'[k..];
    assert rel[k..] == Goal(container, strip, rel)[|container|..];
    assert rel[k..] <= rel'[k..] by {
      assert Goal(container, strip, rel')[|container|..|container| + |rel[k..]|] == rel[k..];
    }
    assert rel == rel[..k] + rel[k..] && rel' == rel'[..k] + rel'[k..] && rel[..k] == rel'[..k];
    assert rel <= rel' && up + rel <= up + rel';
    if rel != rel' {
      AncestorsAreDirs(t, up + rel', up + rel);
    }
  }

  function GoalStep(container: Path, strip: bool, t: Tree, up: Path, rel: Path): Step {
    Step(Put(Goal(container, strip, rel)), MemberFor(t, up, rel).content)
  }

  ghost predicate StepsDescribe(steps: seq<Step>, container: Path, strip: bool, t: Tree, up: Path, sel: set<Path>) {
    && (forall s | s in steps :: IsGoalStep(s, container, strip, t, up, sel))
    && (forall rel | rel in sel :: GoalStep(container, strip, t, up, rel) in steps)
  }

  ghost predicate IsGoalStep(s: Step, container: Path, strip: bool, t: Tree, up: Path, sel: set<Path>) {
    exists rel :: rel in sel && s == GoalStep(container, strip, t, up, rel)
  }

  lemma MembersBecomeSteps(container: Path, strip: bool, t: Tree, up: Path, sel: set<Path>, members: seq<Member>)
    requires Placeable(container, strip, t, up, sel) && Describes(members, t, up, sel)
    ensures StepsDescribe(Steps(container, strip, members), container, strip, t, up, sel)
  {
    var steps := Steps(container, strip, members);
    forall s | s in steps ensures IsGoalStep(s, container, strip, t, up, sel) {
      var i :| 0 <= i < |steps| && s == steps[i];
      assert IsListed(members[i], t, up, sel);
      var rel :| rel in sel && members[i] == MemberFor(t, up, rel);
      MemberGoesToGoal(container, strip, t, up, rel);
      assert s == GoalStep(container, strip, t, up, rel);
    }
    forall rel | rel in sel ensures GoalStep(container, strip, t, up, rel) in steps {
      var i :| 0 <= i < |members| && members[i] == MemberFor(t, up, rel);
      MemberGoesToGoal(container, strip, t, up, rel);
      assert steps[i] == GoalStep(container, strip, t, up, rel);
    }
  }

  /** A selected file is described, with its own content. */
  lemma DescribedContent(steps: seq<Step>, container: Path, strip: bool, t: Tree, up: Path, sel: set<Path>, rel: Path)
    requires WellFormed(t) && Placeable(container, strip, t, up, sel) && StepsDescribe(steps, container, strip, t, up, sel)
    requires rel in sel
    ensures Goal(container, strip, rel) in FinalFiles(steps)
    ensures FinalFiles(steps)[Goal(container, strip, rel)] == MemberFor(t, up, rel).content
  {
    var p := Goal(container, strip, rel);
    LastMemberWins(steps, p);
    var i :| 0 <= i < |steps| && steps[i] == GoalStep(container, strip, t, up, rel);
    assert steps[i].plan == Put(p);
    forall j | 0 <= j < |steps| && steps[j].plan == Put(p)
      ensures steps[j].content == MemberFor(t, up, rel).content
    {
      assert IsGoalStep(steps[j], container, strip, t, up, sel);
      var other :| other in sel && steps[j] == GoalStep(container, strip, t, up, other);
      GoalsDiffer(container, strip, t, up, sel, other, rel);
    }
    UniformContent(steps, p, MemberFor(t, up, rel).content);
  }

  /** A described file is a selected one. */
  lemma DescribedIsSelected(steps: seq<Step>, container: Path, strip: bool, t: Tree, up: Path, sel: set<Path>, p: Path)
    returns (rel: Path)
    requires StepsDescribe(steps, container, strip, t, up, sel) && p in FinalFiles(steps)
    ensures rel in sel && p == Goal(container, strip, rel)
  {
    LastMemberWins(steps, p);
    var i :| 0 <= i < |steps| && steps[i].plan == Put(p);
    assert IsGoalStep(steps[i], container, strip, t, up, sel);
    rel :| rel in sel && steps[i] == GoalStep(container, strip, t, up, rel);
  }

  lemma DescribedIsExtractable(steps: seq<Step>, container: Path, strip: bool, t: Tree, up: Path, sel: set<Path>)
    requires WellFormed(t) && Placeable(container, strip, t, up, sel) && StepsDescribe(steps, container, strip, t, up, sel)
    ensures Extractable(container, steps)
  {
    forall s | s in steps ensures s.plan != Reject && s.plan != Put(container) {
      assert IsGoalStep(s, container, strip, t, up, sel);
      var rel :| rel in sel && s == GoalStep(container, strip, t, up, rel);
      assert |Goal(container, strip, rel)| > |container|;
    }
    forall p, q | p in FinalFiles(steps) && q in FinalFiles(steps) && p <= q ensures p == q {
      var a := DescribedIsSelected(steps, container, strip, t, up, sel, p);
      var b := DescribedIsSelected(steps, container, strip, t, up, sel, q);
      GoalsDiffer(container, strip, t, up, sel, a, b);
    }
  }

  /* ---- the round trip ---- */

  /** Below its container the tree holds exactly the selected files, each with its content. */
  ghost predicate HoldsSelection(g: Tree, container: Path, strip: bool, t: Tree, up: Path, sel: set<Path>) {
    && (forall rel | rel in sel ::
          IsFile(g, Goal(container, strip, rel)) && g[Goal(container, strip, rel)].content == MemberFor(t, up, rel).content)
    && (forall p | IsFile(g, p) && container <= p :: exists rel :: rel in sel && p == Goal(container, strip, rel))
  }

  /** The extraction starts on a container just made, with nothing in it. */
  lemma ContainerIsReady(g: Tree, archive: Path, members: seq<Member>) returns (g1: Tree)
    requires WellFormed(g) && IsFile(g, archive) && Parent(archive) != [] && Wanted(archive, members).Some?
    ensures var container := FreshPath(g, Wanted(archive, members).value);
            && WellFormed(g1) && IsDir(g1, container) && container != [] && ValidNames(container)
            && (forall p | p in g1 && container <= p :: p == container) && g1 == g[container := Dir]
            && ExtractZip(g, archive, members) == RunSteps(g1, Steps(container, OneRoot(members), members))
  {
    WantedPlace(g, archive, members);
    var container := FreshPath(g, Wanted(archive, members).value);
    FreshPathIsValid(g, Wanted(archive, members).value);
    FreshPathIsFirstFree(g, Wanted(archive, members).value, 1);
    ContainerIsMade(g, container);
    g1 := MakeDirs(g, container).value;
  }

  /** Once the container name is accepted, an extraction returns exactly for the archives that can be laid out, and
      then the container holds exactly their files: for each path the content of the last member for it. */
  lemma ExtractionIsExact(g: Tree, archive: Path, members: seq<Member>)
    requires WellFormed(g) && IsFile(g, archive) && Parent(archive) != [] && Wanted(archive, members).Some?
    ensures var r, container := ExtractZip(g, archive, members), FreshPath(g, Wanted(archive, members).value);
            var steps := Steps(container, OneRoot(members), members);
            && (r.ok <==> Extractable(container, steps))
            && (r.ok ==> LaidOut(r.tree, container, FinalFiles(steps)))
  {
    var container := FreshPath(g, Wanted(archive, members).value);
    var g1 := ContainerIsReady(g, archive, members);
    StepsStayBelow(container, OneRoot(members), members);
    LoopLaysOut(g1, container, Steps(container, OneRoot(members), members));
  }

  /** Extracting an archive that describes a placeable selection lays out exactly that selection. */
  lemma DescribedArchiveExtracts(g: Tree, archive: Path, members: seq<Member>, t: Tree, up: Path, sel: set<Path>)
    requires WellFormed(g) && IsFile(g, archive) && Parent(archive) != [] && Wanted(archive, members).Some?
    requires WellFormed(t) && Describes(members, t, up, sel)
    requires Placeable(FreshPath(g, Wanted(archive, members).value), OneRoot(members), t, up, sel)
    ensures var r, container := ExtractZip(g, archive, members), FreshPath(g, Wanted(archive, members).value);
            r.ok && HoldsSelection(r.tree, container, OneRoot(members), t, up, sel)
  {
    var container, strip := FreshPath(g, Wanted(archive, members).value), OneRoot(members);
    var g1 := ContainerIsReady(g, archive, members);
    var steps := Steps(container, strip, members);
    MembersBecomeSteps(container, strip, t, up, sel, members);
    DescribedIsExtractable(steps, container, strip, t, up, sel);
    StepsStayBelow(container, strip, members);
    LoopLaysOut(g1, container, steps);
    LaidOutHolds(RunSteps(g1, steps).tree, steps, container, strip, t, up, sel);
  }

  lemma LaidOutHolds(g: Tree, steps: seq<Step>, container: Path, strip: bool, t: Tree, up: Path, sel: set<Path>)
    requires WellFormed(t) && Placeable(container, strip, t, up, sel) && StepsDescribe(steps, container, strip, t, up, sel)
    requires LaidOut(g, container, FinalFiles(steps))
    ensures HoldsSelection(g, container, strip, t, up, sel)
  {
    forall rel | rel in sel
      ensures IsFile(g, Goal(container, strip, rel)) && g[Goal(container, strip, rel)].content == MemberFor(t, up, rel).content
    {
      DescribedContent(steps, container, strip, t, up, sel, rel);
    }
    forall p | IsFile(g, p) && container <= p ensures exists rel :: rel in sel && p == Goal(container, strip, rel) {
      var rel := DescribedIsSelected(steps, container, strip, t, up, sel, p);
    }
  }

  /* the roots */

  lemma RootsOfDescribed(members: seq<Member>, t: Tree, up: Path, sel: set<Path>)
    requires Describes(members, t, up, sel) && forall rel | rel in sel :: rel != [] && ValidNames(rel)
    ensures forall root :: root in ZipRoots(members) <==> exists rel :: rel in sel && rel[0] == root
  {
    forall rel | rel in sel ensures AllParts(ParsePath(MemberFor(t, up, rel).filename)) == rel {
      ParseOfWritten(rel);
    }
    forall root ensures root in ZipRoots(members) <==> exists rel :: rel in sel && rel[0] == root {
      if root in ZipRoots(members) {
        var m :| m in members && AllParts(ParsePath(m.filename)) != [] && root == AllParts(ParsePath(m.filename))[0];
        assert IsListed(m, t, up, sel);
      }
      if rel :| rel in sel && rel[0] == root {
        assert MemberFor(t, up, rel) in members;
      }
    }
  }

  /** A plain name asks for a container right below the archive's folder. */
  lemma PlainContainer(dir: Path, name: string)
    requires ValidName(name)
    ensures SafeUserPath(dir, ParsePath(name)) == Some(dir + [name])
  {
    SplitFree(name, '/');
    KeptOfKept([name]);
    ResolvePlain(dir, [name]);
  }

  lemma DirectorySelection(t: Tree, d: Path)
    requires WellFormed(t) && IsDir(t, d) && d != []
    ensures forall rel | rel in Selected(t, [d], Parent(d)) ::
              |rel| >= 2 && rel[0] == Name(d) && ValidNames(rel) && IsFile(t, Parent(d) + rel)
    ensures forall sub {:trigger d + sub} ::
              IsFile(t, d + sub) <==> [Name(d)] + sub in Selected(t, [d], Parent(d))
  {
    var up := Parent(d);
    assert d == up + [Name(d)];
    forall rel | rel in Selected(t, [d], up)
      ensures |rel| >= 2 && rel[0] == Name(d) && ValidNames(rel) && IsFile(t, up + rel)
    {
      SelectedPlace(t, [d], up, rel);
      SelectedMeans(t, [d], up, rel);
      var first := rel[0];
      assert rel == [first] + rel[1..];
      assert rel[1..] == [] ==> up + rel == up + [first];
    }
    forall sub ensures IsFile(t, d + sub) <==> [Name(d)] + sub in Selected(t, [d], up) {
      SelectedMeans(t, [d], up, [Name(d)] + sub);
      assert up + ([Name(d)] + sub) == d + sub && [d][0] <= d + sub;
    }
  }

  /** The archive of a directory that holds a file has the directory's name as its only root. */
  lemma DirectoryArchive(t: Tree, walk: Path -> seq<Path>, d: Path, some: Path)
    requires WellFormed(t) && WalksTree(t, walk) && IsDir(t, d) && d != [] && IsFile(t, d + some)
    ensures var members := ArchiveOf(t, ManifestOf(t, walk, [d]));
            OneRoot(members) && FirstRoot(members) == Name(d) && Describes(members, t, Parent(d), Selected(t, [d], Parent(d)))
  {
    var up, sel := Parent(d), Selected(t, [d], Parent(d));
    var members := ArchiveOf(t, ManifestOf(t, walk, [d]));
    DirectorySelection(t, d);
    ArchiveDescribesSelection(t, walk, [d], up);
    assert IsFile(t, d + some);
    OneRootOfDescribed(members, t, up, sel, [Name(d)] + some);
  }

  lemma OneRootOfDescribed(members: seq<Member>, t: Tree, up: Path, sel: set<Path>, some: Path)
    requires Describes(members, t, up, sel) && some in sel && forall rel | rel in sel :: rel != [] && ValidNames(rel)
    requires forall rel | rel in sel :: rel != [] && rel[0] == some[0]
    ensures OneRoot(members) && FirstRoot(members) == some[0]
  {
    RootsOfDescribed(members, t, up, sel);
    assert ZipRoots(members) == {some[0]};
    OnlyRootIsFirst(members);
  }

  /** Round trip of one directory: extracting the archive downloaded for a directory that holds a file recreates
      exactly its files, with the same contents and at the same places, under a fresh container of its name. */
  lemma DirectoryRoundTrip(t: Tree, walk: Path -> seq<Path>, d: Path, some: Path, g: Tree, archive: Path)
    requires WellFormed(t) && WalksTree(t, walk) && IsDir(t, d) && d != [] && IsFile(t, d + some)
    requires WellFormed(g) && IsFile(g, archive) && Parent(archive) != []
    ensures DownloadOf(t, walk, [d]).Zip?
    ensures var r := ExtractZip(g, archive, ArchiveOf(t, DownloadOf(t, walk, [d]).manifest));
            var container := FreshPath(g, Parent(archive) + [Name(d)]);
            r.ok && forall sub ::
              && (IsFile(r.tree, container + sub) <==> IsFile(t, d + sub))
              && (IsFile(t, d + sub) ==> r.tree[container + sub] == t[d + sub])
  {
    var members := ArchiveOf(t, ManifestOf(t, walk, [d]));
    var container := FreshPath(g, Parent(archive) + [Name(d)]);
    DirectoryArchive(t, walk, d, some);
    assert ValidName(Name(d)) by { assert Attached(t, d) && Name(d) in d; }
    PlainContainer(Parent(archive), Name(d));
    assert Placeable(container, true, t, Parent(d), Selected(t, [d], Parent(d))) by { DirectorySelection(t, d); }
    DescribedArchiveExtracts(g, archive, members, t, Parent(d), Selected(t, [d], Parent(d)));
    DirectoryHolds(ExtractZip(g, archive, members).tree, container, t, d);
  }

  lemma DirectoryHoldsAt(g: Tree, container: Path, t: Tree, d: Path, sub: Path)
    requires WellFormed(t) && IsDir(t, d) && d != []
    requires HoldsSelection(g, container, true, t, Parent(d), Selected(t, [d], Parent(d)))
    ensures IsFile(g, container + sub) <==> IsFile(t, d + sub)
    ensures IsFile(t, d + sub) ==> g[container + sub] == t[d + sub]
  {
    var up, sel := Parent(d), Selected(t, [d], Parent(d));
    DirectorySelection(t, d);
    var rel := [Name(d)] + sub;
    assert up + rel == d + sub && rel[1..] == sub;
    assert Goal(container, true, rel) == container + sub;
    if IsFile(g, container + sub) {
      var other :| other in sel && container + sub == Goal(container, true, other);
      assert other[1..] == (container + sub)[|container|..] == sub;
      assert other == [Name(d)] + other[1..];
    }
    assert rel in sel <==> IsFile(t, d + sub);
  }

  lemma DirectoryHolds(g: Tree, container: Path, t: Tree, d: Path)
    requires WellFormed(t) && IsDir(t, d) && d != []
    requires HoldsSelection(g, container, true, t, Parent(d), Selected(t, [d], Parent(d)))
    ensures forall sub ::
              && (IsFile(g, container + sub) <==> IsFile(t, d + sub))
              && (IsFile(t, d + sub) ==> g[container + sub] == t[d + sub])
  {
    forall sub
      ensures IsFile(g, container + sub) <==> IsFile(t, d + sub)
      ensures IsFile(t, d + sub) ==> g[container + sub] == t[d + sub]
    {
      DirectoryHoldsAt(g, container, t, d, sub);
    }
  }

  /** Round trip of a selection from one folder with at least two roots: the files reappear below a container named
      after the archive, with their roots kept. */
  lemma SelectionRoundTrip(t: Tree, walk: Path -> seq<Path>, paths: seq<Path>, up: Path, g: Tree, archive: Path, a: Path, b: Path)
    requires WellFormed(t) && WalksTree(t, walk) && InFolder(paths, up)
    requires a in Selected(t, paths, up) && b in Selected(t, paths, up) && a != [] && b != [] && a[0] != b[0]
    requires WellFormed(g) && IsFile(g, archive) && Parent(archive) != [] && ValidName(Stem(Name(archive)))
    ensures DownloadOf(t, walk, paths).Zip?
    ensures var r := ExtractZip(g, archive, ArchiveOf(t, DownloadOf(t, walk, paths).manifest));
            var container := FreshPath(g, Parent(archive) + [Stem(Name(archive))]);
            r.ok && forall rel ::
              && (IsFile(r.tree, container + rel) <==> IsFile(t, up + rel) && UnderOne(paths, up + rel))
              && (IsFile(t, up + rel) && UnderOne(paths, up + rel) ==> r.tree[container + rel] == t[up + rel])
  {
    var sel := Selected(t, paths, up);
    var members := ArchiveOf(t, ManifestOf(t, walk, paths));
    TwoRootsSelected(t, paths, up, a, b);
    forall rel | rel in sel ensures rel != [] && ValidNames(rel) && IsFile(t, up + rel) {
      SelectedPlace(t, paths, up, rel);
    }
    ArchiveDescribesSelection(t, walk, paths, up);
    TwoRootsOfDescribed(members, t, up, sel, a, b);
    PlainContainer(Parent(archive), Stem(Name(archive)));
    DescribedArchiveExtracts(g, archive, members, t, up, sel);
    SelectionHolds(ExtractZip(g, archive, members).tree, FreshPath(g, Parent(archive) + [Stem(Name(archive))]), t, paths, up);
  }

  /** Files with different roots come from different selected paths, so it is not the download of a single file. */
  lemma TwoRootsSelected(t: Tree, paths: seq<Path>, up: Path, a: Path, b: Path)
    requires WellFormed(t) && InFolder(paths, up)
    requires a in Selected(t, paths, up) && b in Selected(t, paths, up) && a != [] && b != [] && a[0] != b[0]
    ensures |paths| >= 2
  {
    SelectedPlace(t, paths, up, a);
    SelectedPlace(t, paths, up, b);
    var i :| 0 <= i < |paths| && paths[i] == up + [a[0]];
    var j :| 0 <= j < |paths| && paths[j] == up + [b[0]];
    assert paths[i][|up|] != paths[j][|up|];
  }

  lemma TwoRootsOfDescribed(members: seq<Member>, t: Tree, up: Path, sel: set<Path>, a: Path, b: Path)
    requires Describes(members, t, up, sel) && forall rel | rel in sel :: rel != [] && ValidNames(rel)
    requires a in sel && b in sel && a[0] != b[0]
    ensures !OneRoot(members)
  {
    RootsOfDescribed(members, t, up, sel);
    assert a[0] in ZipRoots(members) && b[0] in ZipRoots(members);
    if OneRoot(members) {
      OnlyRootIsFirst(members);
      assert false;
    }
  }

  lemma SelectionHolds(g: Tree, container: Path, t: Tree, paths: seq<Path>, up: Path)
    requires HoldsSelection(g, container, false, t, up, Selected(t, paths, up))
    ensures forall rel ::
              && (IsFile(g, container + rel) <==> IsFile(t, up + rel) && UnderOne(paths, up + rel))
              && (IsFile(t, up + rel) && UnderOne(paths, up + rel) ==> g[container + rel] == t[up + rel])
  {
    var sel := Selected(t, paths, up);
    forall rel
      ensures IsFile(g, container + rel) <==> IsFile(t, up + rel) && UnderOne(paths, up + rel)
      ensures IsFile(t, up + rel) && UnderOne(paths, up + rel) ==> g[container + rel] == t[up + rel]
    {
      SelectedMeans(t, paths, up, rel);
      if IsFile(g, container + rel) {
        var other :| other in sel && container + rel == Goal(container, false, other);
        assert other == (container + other)[|container|..] == rel;
      }
      if rel in sel {
        assert Goal(container, false, rel) == container + rel;
      }
    }
  }

  /* ---- an archive of a lone file ---- */

  /** When all members share one root and one of them is that root itself as a file, its target is the container
      directory, so the extraction raises. A container made stays behind, with everything else as it was; it is empty
      if that was the only member. */
  lemma LoneFileIsNotExtracted(g: Tree, archive: Path, members: seq<Member>, i: nat)
    requires WellFormed(g) && IsFile(g, archive) && Parent(archive) != []
    requires OneRoot(members) && i < |members| && !IsFolder(members[i]) && |AllParts(ParsePath(members[i].filename))| == 1
    ensures !ExtractZip(g, archive, members).ok
    ensures Wanted(archive, members).Some? ==>
              var g', container := ExtractZip(g, archive, members).tree, FreshPath(g, Wanted(archive, members).value);
              && container !in g && IsDir(g', container) && Keeps(g, g')
              && (forall p | p in g' && p !in g :: container <= p)
              && (|members| == 1 ==> g' == g[container := Dir])
  {
    if Wanted(archive, members).Some? {
      ExtractionFrame(g, archive, members);
      var container := FreshPath(g, Wanted(archive, members).value);
      var g1 := ContainerIsReady(g, archive, members);
      var steps := Steps(container, true, members);
      StepsStayBelow(container, true, members);
      LoopLaysOut(g1, container, steps);
      RootGoesToContainer(container, members, i);
      if |members| == 1 {
        LoneStep(g1, container, steps);
      }
    }
  }

  lemma RootGoesToContainer(container: Path, members: seq<Member>, i: nat)
    requires i < |members| && !IsFolder(members[i]) && |AllParts(ParsePath(members[i].filename))| == 1
    ensures var steps := Steps(container, true, members); steps[i] in steps && steps[i].plan == Put(container)
  {
    assert InnerPath(true, members[i]).parts == [];
  }

  /** Writing to the container directory itself fails and changes nothing. */
  lemma LoneStep(g: Tree, container: Path, steps: seq<Step>)
    requires WellFormed(g) && IsDir(g, container) && container != [] && |steps| == 1 && steps[0].plan == Put(container)
    ensures RunSteps(g, steps) == Extracted(g, false)
  {
    AncestorsAreDirs(g, container, Parent(container));
    ExistingDirs(g, Parent(container));
    assert steps[..0] == [];
  }

  /** Such an archive: one whose only member is the file "a". */
  lemma LoneFileExample(g: Tree, archive: Path, m: Member)
    requires WellFormed(g) && IsFile(g, archive) && Parent(archive) != [] && m.filename == "a"
    ensures ExtractZip(g, archive, [m]) == Extracted(g[FreshPath(g, Parent(archive) + ["a"]) := Dir], false)
  {
    var name := m.filename;
    SplitFree(name, '/');
    KeptOfKept([name]);
    assert AllParts(ParsePath(name)) == [name];
    assert ZipRoots([m]) == {name};
    PlainContainer(Parent(archive), name);
    LoneFileIsNotExtracted(g, archive, [m], 0);
  }
}
