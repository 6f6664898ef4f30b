/** Extraction in terms of the members' names: which archives are extracted, and what they leave. */
module ArchiveNames {
  import opened Text
  import opened Paths
  import opened PathLaws
  import opened FileTree
  import opened Extraction
  import opened FilesService
  import opened FileSafety
  import opened Archive

  /* ---- members ---- */

  predicate EndsInSlash(name: string) {
    |name| > 0 && name[|name| - 1] == '/'
  }

  /** The components of a member's name inside the container; the shared root is dropped. */
  function InnerParts(strip: bool, name: string): seq<string> {
    var written := ParsePath(name);
    if strip && written.root == "" && written.parts != [] then written.parts[1..] else written.parts
  }

  /** Where the members land: nowhere for a folder, whose name ends in a slash; else where the name leads from the
      container, which may be outside of it. */
  function Landings(container: Path, strip: bool, members: seq<Member>): seq<Option<Path>> {
    seq(|members|, i requires 0 <= i < |members| =>
      if EndsInSlash(members[i].filename) then None
      else Some(Landing(container, InnerParts(strip, members[i].filename))))
  }

  function PlanFor(container: Path, landing: Option<Path>): Plan {
    match landing
    case None => Skip
    case Some(p) => if container <= p then Put(p) else Reject
  }

  lemma InnerPathParts(strip: bool, m: Member)
    ensures InnerPath(strip, m).parts == InnerParts(strip, m.filename)
  {
    var written := ParsePath(m.filename);
    if strip && AllParts(written) != [] {
      DroppedFirst(written.root, written.parts);
    }
  }

  /** The steps follow the landings. */
  predicate Follow(steps: seq<Step>, container: Path, landings: seq<Option<Path>>, members: seq<Member>) {
    && |steps| == |landings| == |members|
    && forall i | 0 <= i < |steps| :: steps[i] == Step(PlanFor(container, landings[i]), members[i].content)
  }

  /** Members whose name ends in a slash are passed over; the others land where their names lead, or are refused. */
  lemma StepsFollow(container: Path, strip: bool, members: seq<Member>)
    ensures Follow(Steps(container, strip, members), container, Landings(container, strip, members), members)
  {
    forall i | 0 <= i < |members|
      ensures PlanOf(container, strip, members[i]) == PlanFor(container, Landings(container, strip, members)[i])
    {
      InnerPathParts(strip, members[i]);
      SafePathExactlyWhen(container, InnerPath(strip, members[i]));
    }
  }

  /* ---- folders among the members ---- */

  function FilesOnly(members: seq<Member>): seq<Member> {
    if members == [] then []
    else
      var n := |members| - 1;
      FilesOnly(members[..n]) + (if EndsInSlash(members[n].filename) then [] else [members[n]])
  }

  lemma StepsOneMore(t: Tree, container: Path, strip: bool, members: seq<Member>, m: Member)
    ensures var before := RunSteps(t, Steps(container, strip, members));
            RunSteps(t, Steps(container, strip, members + [m])) ==
            if !before.ok || EndsInSlash(m.filename) then before
            else RunStep(before.tree, Step(PlanOf(container, strip, m), m.content))
  {
    var steps := Steps(container, strip, members + [m]);
    assert steps[..|steps| - 1] == Steps(container, strip, members);
    StepsFollow(container, strip, members + [m]);
  }

  /** With or without its folder members an archive leaves the same, in one container. */
  lemma {:induction false} FoldersDoNotMatter(t: Tree, container: Path, strip: bool, members: seq<Member>)
    ensures RunSteps(t, Steps(container, strip, members)) == RunSteps(t, Steps(container, strip, FilesOnly(members)))
  {
    if members != [] {
      var n := |members| - 1;
      var front, last := members[..n], members[n];
      FoldersDoNotMatter(t, container, strip, front);
      assert members == front + [last];
      StepsOneMore(t, container, strip, front, last);
      if EndsInSlash(last.filename) {
        assert FilesOnly(members) == FilesOnly(front);
      } else {
        StepsOneMore(t, container, strip, FilesOnly(front), last);
      }
    }
  }

  /* ---- the whole extraction ---- */

  /** Every file member lands strictly below the container, and none above another one. */
  ghost predicate LandingsFit(container: Path, landings: seq<Option<Path>>) {
    && (forall i | 0 <= i < |landings| && landings[i].Some? :: container <= landings[i].value && landings[i].value != container)
    && (forall i, j | 0 <= i < |landings| && 0 <= j < |landings| && landings[i].Some? && landings[j].Some?
                      && landings[i].value <= landings[j].value :: landings[i] == landings[j])
  }

  predicate LastAt(landings: seq<Option<Path>>, i: int, p: Path) {
    0 <= i < |landings| && landings[i] == Some(p) && forall j | i < j < |landings| :: landings[j] != Some(p)
  }

  ghost predicate SomeBelow(landings: seq<Option<Path>>, p: Path) {
    exists i :: 0 <= i < |landings| && landings[i].Some? && p <= landings[i].value
  }

  /** Below the container are exactly the file members, each with the content of the last one that lands there, and
      the directories they need. */
  ghost predicate HoldsMembers(t: Tree, container: Path, landings: seq<Option<Path>>, members: seq<Member>)
    requires |landings| == |members|
  {
    && (forall p | container <= p :: IsFile(t, p) <==> Some(p) in landings)
    && (forall i, p | LastAt(landings, i, p) :: IsFile(t, p) && t[p].content == members[i].content)
    && (forall p | container <= p && p != container :: IsDir(t, p) ==> SomeBelow(landings, p))
  }

  lemma FinalFilesByName(steps: seq<Step>, container: Path, landings: seq<Option<Path>>, members: seq<Member>, p: Path)
    requires Follow(steps, container, landings, members)
    ensures p in FinalFiles(steps) <==> container <= p && Some(p) in landings
    ensures forall i | LastAt(landings, i, p) && container <= p :: p in FinalFiles(steps) && FinalFiles(steps)[p] == members[i].content
  {
    LastMemberWins(steps, p);
    assert forall i | 0 <= i < |steps| :: steps[i].plan == Put(p) <==> landings[i] == Some(p) && container <= p;
  }

  lemma PlansFitExactlyWhen(steps: seq<Step>, container: Path, landings: seq<Option<Path>>, members: seq<Member>)
    requires Follow(steps, container, landings, members)
    ensures (forall s | s in steps :: s.plan != Reject && s.plan != Put(container)) <==>
            (forall i | 0 <= i < |landings| && landings[i].Some? :: container <= landings[i].value && landings[i].value != container)
  {
    if forall s | s in steps :: s.plan != Reject && s.plan != Put(container) {
      forall i | 0 <= i < |landings| && landings[i].Some? ensures container <= landings[i].value && landings[i].value != container {
        assert steps[i] in steps;
      }
    }
  }

  lemma ExtractableByName(steps: seq<Step>, container: Path, landings: seq<Option<Path>>, members: seq<Member>)
    requires Follow(steps, container, landings, members)
    ensures Extractable(container, steps) <==> LandingsFit(container, landings)
  {
    PlansFitExactlyWhen(steps, container, landings, members);
    var files := FinalFiles(steps);
    forall p ensures p in files <==> container <= p && Some(p) in landings {
      FinalFilesByName(steps, container, landings, members, p);
    }
    if Extractable(container, steps) {
      forall i, j | 0 <= i < |landings| && 0 <= j < |landings| && landings[i].Some? && landings[j].Some?
                    && landings[i].value <= landings[j].value
        ensures landings[i] == landings[j]
      {
        assert landings[i] in landings && landings[j] in landings;
        assert landings[i].value in files && landings[j].value in files;
      }
    }
    if LandingsFit(container, landings) {
      forall p, q | p in files && q in files && p <= q ensures p == q {
        var i :| 0 <= i < |landings| && landings[i] == Some(p);
        var j :| 0 <= j < |landings| && landings[j] == Some(q);
      }
    }
  }

  lemma LaidOutByName(t: Tree, steps: seq<Step>, container: Path, landings: seq<Option<Path>>, members: seq<Member>)
    requires Follow(steps, container, landings, members) && LandingsFit(container, landings)
    requires LaidOut(t, container, FinalFiles(steps))
    ensures HoldsMembers(t, container, landings, members)
  {
    var files := FinalFiles(steps);
    forall p
      ensures p in files <==> container <= p && Some(p) in landings
      ensures forall i | LastAt(landings, i, p) && container <= p :: p in files && files[p] == members[i].content
    {
      FinalFilesByName(steps, container, landings, members, p);
    }
    forall p | container <= p && p != container && IsDir(t, p) ensures SomeBelow(landings, p) {
      assert Needed(files, p);
      var q :| q in files && p <= q;
      var i :| 0 <= i < |landings| && landings[i] == Some(q);
      assert landings[i].Some? && p <= landings[i].value;
    }
  }

  /** An extraction whose container is accepted returns exactly when the members' names fit, and then the container
      holds exactly the members. */
  lemma ExtractionByNames(g: Tree, archive: Path, members: seq<Member>)
    requires WellFormed(g) && IsFile(g, archive) && Parent(archive) != [] && Wanted(archive, members).Some?
    ensures var r, container := ExtractZip(g, archive, members), FreshPath(g, Wanted(archive, members).value);
            var landings := Landings(container, OneRoot(members), members);
            && (r.ok <==> LandingsFit(container, landings))
            && (r.ok ==> HoldsMembers(r.tree, container, landings, members))
  {
    var container := FreshPath(g, Wanted(archive, members).value);
    var landings, steps := Landings(container, OneRoot(members), members), Steps(container, OneRoot(members), members);
    StepsFollow(container, OneRoot(members), members);
    ExtractionIsExact(g, archive, members);
    ExtractableByName(steps, container, landings, members);
    var r := ExtractZip(g, archive, members);
    if r.ok {
      LaidOutByName(r.tree, steps, container, landings, members);
    }
  }

  /* ---- the container's name ---- */

  /** The first components of the members' names. */
  ghost predicate IsRoot(members: seq<Member>, root: string) {
    exists i | 0 <= i < |members| :: AllParts(ParsePath(members[i].filename)) != [] && AllParts(ParsePath(members[i].filename))[0] == root
  }

  /** The container is named after the one root all members share, else after the archive. */
  lemma ContainerIsNamedAfter(archive: Path, members: seq<Member>, root: string)
    requires IsRoot(members, root)
    ensures ContainerName(archive, members) ==
            if forall other | IsRoot(members, other) :: other == root then root else Stem(Name(archive))
  {
    forall other ensures other in ZipRoots(members) <==> IsRoot(members, other) {
      if other in ZipRoots(members) {
        var m :| m in members && AllParts(ParsePath(m.filename)) != [] && other == AllParts(ParsePath(m.filename))[0];
        var i :| 0 <= i < |members| && members[i] == m;
      }
      if i :| 0 <= i < |members| && AllParts(ParsePath(members[i].filename)) != [] && AllParts(ParsePath(members[i].filename))[0] == other {
        assert members[i] in members;
      }
    }
    if forall other | IsRoot(members, other) :: other == root {
      assert ZipRoots(members) == {root};
      OnlyRootIsFirst(members);
    } else {
      var other :| IsRoot(members, other) && other != root;
      TwoAreNotOne(ZipRoots(members), root, other);
    }
  }

  lemma TwoAreNotOne(roots: set<string>, a: string, b: string)
    requires a in roots && b in roots && a != b
    ensures |roots| != 1
  {
    assert {a, b} <= roots;
    SubsetSizes({a, b}, roots);
  }

  lemma {:induction false} SubsetSizes(a: set<string>, b: set<string>)
    requires a <= b
    ensures |a| <= |b|
  {
    if x :| x in a {
      SubsetSizes(a - {x}, b - {x});
    }
  }

  /* ---- an ordinary archive ---- */

  /** The components of the names of a folder and of a file in it. */
  lemma FolderNames(dir: string, file: string)
    requires ValidName(dir) && ValidName(file)
    ensures ParsePath(dir + "/") == PurePath("", [dir]) && ParsePath(dir + "/" + file) == PurePath("", [dir, file])
    ensures EndsInSlash(dir + "/") && !EndsInSlash(dir + "/" + file)
  {
    TwoParts(dir, file);
    SplitPrefix(dir, '/', "");
    SplitFree("", '/');
    assert dir + "/" == dir + ['/'] + "";
    KeptOfConcat([dir], [""]);
    KeptOfKept([dir]);
    assert KeptParts([""]) == [];
    assert (dir + "/" + file)[|dir| + |file|] == file[|file| - 1];
  }

  lemma FolderAndFileLand(container: Path, members: seq<Member>, dir: string, file: string)
    requires ValidName(dir) && ValidName(file)
    requires |members| == 2 && members[0].filename == dir + "/" && members[1].filename == dir + "/" + file
    ensures Landings(container, true, members) == [None, Some(container + [file])]
  {
    FolderNames(dir, file);
    assert [dir, file][1..] == [file] && [file][..0] == [];
    assert Reduce([file]) == Reduced(0, [file]);
    assert Landing(container, [file]) == container + [file];
  }

  lemma FolderIsTheRoot(archive: Path, members: seq<Member>, dir: string, file: string)
    requires ValidName(dir) && ValidName(file)
    requires |members| == 2 && members[0].filename == dir + "/" && members[1].filename == dir + "/" + file
    ensures OneRoot(members) && ContainerName(archive, members) == dir
  {
    FolderNames(dir, file);
    assert ZipRoots(members) == {dir} by {
      assert members[0] in members && members[1] in members;
    }
    OnlyRootIsFirst(members);
  }

  lemma OneFileFits(t: Tree, container: Path, members: seq<Member>, file: string)
    requires |members| == 2
    ensures var landings := [None, Some(container + [file])];
            && LandingsFit(container, landings)
            && (HoldsMembers(t, container, landings, members) ==>
                  IsFile(t, container + [file]) && t[container + [file]].content == members[1].content)
  {
    var landings := [None, Some(container + [file])];
    assert |container + [file]| > |container|;
    assert LastAt(landings, 1, container + [file]);
  }

  /** A folder and a file in it, as archivers write them: the folder member is passed over and the file is laid out in
      a container of the folder's name. */
  lemma FolderAndFile(g: Tree, archive: Path, members: seq<Member>, dir: string, file: string)
    requires WellFormed(g) && IsFile(g, archive) && Parent(archive) != [] && ValidName(dir) && ValidName(file)
    requires |members| == 2 && members[0].filename == dir + "/" && members[1].filename == dir + "/" + file
    ensures var r, container := ExtractZip(g, archive, members), FreshPath(g, Parent(archive) + [dir]);
            r.ok && IsFile(r.tree, container + [file]) && r.tree[container + [file]].content == members[1].content
  {
    var container := FreshPath(g, Parent(archive) + [dir]);
    assert Wanted(archive, members) == Some(Parent(archive) + [dir]) && OneRoot(members) by {
      FolderIsTheRoot(archive, members, dir, file);
      PlainContainer(Parent(archive), dir);
    }
    assert Landings(container, true, members) == [None, Some(container + [file])] by {
      FolderAndFileLand(container, members, dir, file);
    }
    ExtractionByNames(g, archive, members);
    OneFileFits(ExtractZip(g, archive, members).tree, container, members, file);
  }

  /** The instance "mods/", "mods/a.jar". */
  lemma ModsArchive(g: Tree, archive: Path, content: string) returns (members: seq<Member>)
    requires WellFormed(g) && IsFile(g, archive) && Parent(archive) != []
    ensures |members| == 2 && members[0].filename == "mods/" && members[1] == Member("mods/a.jar", content)
    ensures var r, container := ExtractZip(g, archive, members), FreshPath(g, Parent(archive) + ["mods"]);
            r.ok && IsFile(r.tree, container + ["a.jar"]) && r.tree[container + ["a.jar"]].content == content
  {
    var dir, file := PlainNames();
    members := [Member(dir + "/", ""), Member(dir + "/" + file, content)];
    FolderAndFile(g, archive, members, dir, file);
  }

  lemma PlainNames() returns (dir: string, file: string)
    ensures dir == "mods" && file == "a.jar" && ValidName(dir) && ValidName(file)
    ensures dir + "/" == "mods/" && dir + "/" + file == "mods/a.jar"
  {
    dir, file := "mods", "a.jar";
  }
}
