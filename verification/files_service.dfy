/** The file operations of one data folder: what each does to the tree, and the service that performs them. */
module FilesService {
  import opened Text
  import opened Paths
  import opened FileTree
  import opened Extraction

  /** How an operation ends. `CopiesItself` is a directory copied below one of its own subdirectories, where the copy
      goes on to copy its own output; the tree is then the one before any entry was copied. */
  datatype Outcome = Returned | Raised | CopiesItself

  datatype Result = Result(tree: Tree, outcome: Outcome)

  /* ---- what each operation does ---- */

  /** All the paths of a request resolved first; one bad path raises before anything is touched. */
  function SafePaths(base: Path, users: seq<PurePath>): Option<seq<Path>> {
    if users == [] then Some([])
    else
      match (SafePaths(base, users[..|users| - 1]), SafeUserPath(base, users[|users| - 1]))
      case (Some(front), Some(p)) => Some(front + [p])
      case _ => None
  }

  function DeletePaths(t: Tree, paths: seq<Path>): Tree {
    if paths == [] then t
    else
      var before := DeletePaths(t, paths[..|paths| - 1]);
      var p := paths[|paths| - 1];
      if p in before then RemoveTree(before, p) else before
  }

  function DeleteFiles(t: Tree, base: Path, users: seq<PurePath>): Result {
    match SafePaths(base, users)
    case None => Result(t, Raised)
    case Some(paths) => Result(DeletePaths(t, paths), Returned)
  }

  /** The destination lies at or below an entry of the source directory. */
  predicate BelowOwnEntry(t: Tree, src: Path, dest: Path) {
    src < dest && dest[..|src| + 1] in t
  }

  function CopyOne(t: Tree, src: Path, dest: Path): Result {
    if src !in t then Result(t, Returned)
    else
      var dst := FreshPath(t, dest + [Name(src)]);
      if IsDir(t, src) then
        match MakeDirs(t, Parent(dst))
        case None => Result(t, Raised)
        case Some(t1) =>
          if BelowOwnEntry(t, src, dest) then Result(t1, CopiesItself)
          else Result(CopyTree(t1, t, src, dst), Returned)
      else
        match WriteFile(t, dst, t[src].content)
        case None => Result(t, Raised)
        case Some(t1) => Result(t1, Returned)
  }

  function CopyPaths(t: Tree, paths: seq<Path>, dest: Path): Result {
    if paths == [] then Result(t, Returned)
    else
      var before := CopyPaths(t, paths[..|paths| - 1], dest);
      if before.outcome != Returned then before else CopyOne(before.tree, paths[|paths| - 1], dest)
  }

  function CopyFiles(t: Tree, base: Path, users: seq<PurePath>, destination: PurePath): Result {
    match (SafePaths(base, users), SafeUserPath(base, destination))
    case (Some(paths), Some(dest)) => CopyPaths(t, paths, dest)
    case _ => Result(t, Raised)
  }

  /** The last part of an upload: consume the information file and move the temporary file to its target. */
  function FinishUpload(t: Tree, uploads: Path, fileId: string, target: Path): Result {
    var tmp, info := uploads + [fileId], uploads + [Stem(fileId) + ".info"];
    if !IsFile(t, info) then Result(t, Raised)
    else
      var t1 := RemoveTree(t, info);
      if tmp !in t1 || !IsDir(t1, Parent(target)) || tmp <= target then Result(t1, Raised)
      else Result(MoveTree(t1, tmp, target), Returned)
  }

  function UploadFile(t: Tree, base: Path, uploads: Path, fileId: string, filename: string, destination: PurePath): Result {
    match SafeUserPath(base, destination)
    case None => Result(t, Raised)
    case Some(dest) =>
      match MakeDirs(t, dest)
      case None => Result(t, Raised)
      case Some(t1) =>
        match SafeUserPath(dest, ParsePath(filename))
        case None => Result(t1, Raised)
        case Some(wanted) =>
          match MakeDirs(t1, Parent(wanted))
          case None => Result(t1, Raised)
          case Some(t2) => FinishUpload(t2, uploads, fileId, FreshPath(t2, wanted))
  }

  function LowerChar(c: char): char {
    if 'A' <= c <= 'Z' then c - 'A' + 'a' else c
  }

  predicate ZipName(name: string) {
    var suffix := Suffix(name);
    |suffix| == 4 && LowerChar(suffix[1]) == 'z' && LowerChar(suffix[2]) == 'i' && LowerChar(suffix[3]) == 'p'
  }

  /** The root of the first member that has one. */
  function FirstRoot(members: seq<Member>): string {
    if members == [] then ""
    else
      var parts := AllParts(ParsePath(members[0].filename));
      if parts != [] then parts[0] else FirstRoot(members[1..])
  }

  predicate OneRoot(members: seq<Member>) {
    |ZipRoots(members)| == 1
  }

  function ContainerName(archive: Path, members: seq<Member>): string {
    if OneRoot(members) then FirstRoot(members) else Stem(Name(archive))
  }

  function ExtractZip(t: Tree, archive: Path, members: seq<Member>): Extracted {
    match SafeUserPath(Parent(archive), ParsePath(ContainerName(archive, members)))
    case None => Extracted(t, false)
    case Some(wanted) =>
      var container := FreshPath(t, wanted);
      match MakeDirs(t, container)
      case None => Extracted(t, false)
      case Some(t1) => RunSteps(t1, Steps(container, OneRoot(members), members))
  }

  /** The archive's members are None when the file is not a readable archive. */
  function ExtractArchive(t: Tree, base: Path, user: PurePath, members: Option<seq<Member>>): Result {
    match SafeUserPath(base, user)
    case None => Result(t, Raised)
    case Some(archive) =>
      if !IsFile(t, archive) || !ZipName(Name(archive)) || members.None? then Result(t, Raised)
      else
        var r := ExtractZip(t, archive, members.value);
        Result(r.tree, if r.ok then Returned else Raised)
  }

  /** `with_name`, which raises on an empty path and on a name that is not one component. */
  function WithName(user: PurePath, newName: string): Option<PurePath> {
    if user.parts == [] || newName == "" || newName == "." || '/' in newName then None
    else Some(PurePath(user.root, user.parts[..|user.parts| - 1] + [newName]))
  }

  function RenameFile(t: Tree, base: Path, user: PurePath, newName: string): Result {
    match (SafeUserPath(base, user), WithName(user, newName))
    case (Some(src), Some(renamed)) =>
      (match SafeUserPath(base, renamed)
       case None => Result(t, Raised)
       case Some(dst) =>
         if dst in t || src !in t || !IsDir(t, Parent(dst)) || src <= dst then Result(t, Raised)
         else Result(MoveTree(t, src, dst), Returned))
    case _ => Result(t, Raised)
  }

  function SetFileContent(t: Tree, base: Path, user: PurePath, content: string): Result {
    match SafeUserPath(base, user)
    case None => Result(t, Raised)
    case Some(p) => if IsFile(t, p) then Result(t[p := File(content)], Returned) else Result(t, Raised)
  }

  /* ---- the service ---- */

  class FileService {
    var tree: Tree
    const base: Path
    const uploads: Path

    constructor (tree: Tree, base: Path, uploads: Path)
      ensures this.tree == tree && this.base == base && this.uploads == uploads
    {
      this.tree, this.base, this.uploads := tree, base, uploads;
    }

    method ChangePathNameIfExists(path: Path) returns (newPath: Path)
      ensures newPath == FreshPath(tree, path)
    {
      var parent := Parent(path);
      ghost var c := Candidates(path, IsDir(tree, path));
      newPath := path;
      var i := 1;
      while newPath in tree
        invariant i >= 1 && newPath == c(i) && forall j: nat | 1 <= j < i :: c(j) in tree
        decreases |Untried(tree, c, i)|
      {
        TryingUsesUpAnEntry(tree, c, i);
        i := i + 1;
        newPath := parent + [NumberedName(Name(path), IsDir(tree, path), i)];
      }
      assert FirstFree(tree, c, 1) == i;
    }

    method Resolved(users: seq<PurePath>) returns (paths: Option<seq<Path>>)
      ensures paths == SafePaths(base, users)
    {
      var front: seq<Path> := [];
      for i := 0 to |users|
        invariant SafePaths(base, users[..i]) == Some(front)
      {
        assert users[..i + 1][..i] == users[..i];
        var target := SafeUserPath(base, users[i]);
        if target.None? {
          UnsafePrefix(base, users, i + 1);
          return None;
        }
        front := front + [target.value];
      }
      assert users[..|users|] == users;
      return Some(front);
    }

    method Delete(users: seq<PurePath>) returns (outcome: Outcome)
      modifies this`tree
      ensures Result(tree, outcome) == DeleteFiles(old(tree), base, users)
    {
      var paths := Resolved(users);
      if paths.None? {
        return Raised;
      }
      for i := 0 to |paths.value|
        invariant tree == DeletePaths(old(tree), paths.value[..i])
      {
        assert paths.value[..i + 1][..i] == paths.value[..i];
        if paths.value[i] in tree {
          tree := RemoveTree(tree, paths.value[i]);
        }
      }
      assert paths.value[..|paths.value|] == paths.value;
      return Returned;
    }

    /** The body of the copy loop. */
    method CopyEntryTo(src: Path, dest: Path) returns (outcome: Outcome)
      modifies this`tree
      ensures Result(tree, outcome) == CopyOne(old(tree), src, dest)
    {
      if src !in tree {
        return Returned;
      }
      var dst := ChangePathNameIfExists(dest + [Name(src)]);
      var copied: Option<Tree>;
      if IsDir(tree, src) {
        var listed := tree;
        var made := MakeDirs(tree, Parent(dst));
        if made.None? {
          return Raised;
        }
        if BelowOwnEntry(listed, src, dest) {
          tree := made.value;
          return CopiesItself;
        }
        copied := Some(CopyTree(made.value, listed, src, dst));
      } else {
        copied := WriteFile(tree, dst, tree[src].content);
      }
      if copied.None? {
        return Raised;
      }
      tree := copied.value;
      return Returned;
    }

    method Copy(users: seq<PurePath>, destination: PurePath) returns (outcome: Outcome)
      modifies this`tree
      ensures Result(tree, outcome) == CopyFiles(old(tree), base, users, destination)
    {
      var paths := Resolved(users);
      var dest := SafeUserPath(base, destination);
      if paths.None? || dest.None? {
        return Raised;
      }
      var srcs := paths.value;
      for i := 0 to |srcs|
        invariant CopyPaths(old(tree), srcs[..i], dest.value) == Result(tree, Returned)
      {
        assert srcs[..i + 1][..i] == srcs[..i];
        outcome := CopyEntryTo(srcs[i], dest.value);
        if outcome != Returned {
          StoppedCopy(old(tree), srcs, i + 1, dest.value);
          return;
        }
      }
      assert srcs[..|srcs|] == srcs;
      return Returned;
    }

    method Upload(fileId: string, filename: string, destination: PurePath) returns (outcome: Outcome)
      modifies this`tree
      ensures Result(tree, outcome) == UploadFile(old(tree), base, uploads, fileId, filename, destination)
    {
      var dest := SafeUserPath(base, destination);
      if dest.None? {
        return Raised;
      }
      if IsFile(tree, dest.value) {
        assert dest.value in Prefixes(dest.value);
        return Raised;
      }
      var made := MakeDirs(tree, dest.value);
      if made.None? {
        return Raised;
      }
      tree := made.value;
      var wanted := SafeUserPath(dest.value, ParsePath(filename));
      if wanted.None? {
        return Raised;
      }
      made := MakeDirs(tree, Parent(wanted.value));
      if made.None? {
        return Raised;
      }
      tree := made.value;
      var target := ChangePathNameIfExists(wanted.value);
      var tmp, info := uploads + [fileId], uploads + [Stem(fileId) + ".info"];
      if !IsFile(tree, info) {
        return Raised;
      }
      tree := RemoveTree(tree, info);
      if tmp !in tree || !IsDir(tree, Parent(target)) || tmp <= target {
        return Raised;
      }
      tree := MoveTree(tree, tmp, target);
      return Returned;
    }

    method GetZipRoots(members: seq<Member>) returns (roots: set<string>)
      ensures roots == ZipRoots(members)
    {
      roots := {};
      for i := 0 to |members|
        invariant roots == ZipRoots(members[..i])
      {
        RootsGrow(members, i);
        var parts := AllParts(ParsePath(members[i].filename));
        if members[i].filename != "" {
          if parts != [] {
            roots := roots + {parts[0]};
          }
        }
      }
      assert members[..|members|] == members;
    }

    /** The loop over the members. */
    method ExtractMembers(container: Path, strip: bool, members: seq<Member>) returns (ok: bool)
      modifies this`tree
      ensures Extracted(tree, ok) == RunSteps(old(tree), Steps(container, strip, members))
    {
      ghost var steps := Steps(container, strip, members);
      for i := 0 to |members|
        invariant RunSteps(old(tree), steps[..i]) == Extracted(tree, true)
      {
        assert steps[..i + 1][..i] == steps[..i];
        var step := Step(PlanOf(container, strip, members[i]), members[i].content);
        assert steps[i] == step;
        var done := RunStep(tree, step);
        tree := done.tree;
        if !done.ok {
          StoppedLoop(old(tree), steps, i + 1);
          return false;
        }
      }
      assert steps[..|members|] == steps;
      return true;
    }

    method ExtractZipFile(archive: Path, members: seq<Member>) returns (ok: bool)
      modifies this`tree
      ensures Extracted(tree, ok) == ExtractZip(old(tree), archive, members)
    {
      var roots := GetZipRoots(members);
      var containerName := Stem(Name(archive));
      if |roots| == 1 {
        OnlyRootIsFirst(members);
        containerName :| containerName in roots;
      }
      assert containerName == ContainerName(archive, members);
      var wanted := SafeUserPath(Parent(archive), ParsePath(containerName));
      if wanted.None? {
        return false;
      }
      var container := ChangePathNameIfExists(wanted.value);
      var made := MakeDirs(tree, container);
      if made.None? {
        return false;
      }
      tree := made.value;
      ok := ExtractMembers(container, |roots| == 1, members);
    }

    method Extract(user: PurePath, members: Option<seq<Member>>) returns (outcome: Outcome)
      modifies this`tree
      ensures Result(tree, outcome) == ExtractArchive(old(tree), base, user, members)
    {
      var archive := SafeUserPath(base, user);
      if archive.None? || !IsFile(tree, archive.value) || !ZipName(Name(archive.value)) || members.None? {
        return Raised;
      }
      var ok := ExtractZipFile(archive.value, members.value);
      return if ok then Returned else Raised;
    }

    method Rename(user: PurePath, newName: string) returns (outcome: Outcome)
      modifies this`tree
      ensures Result(tree, outcome) == RenameFile(old(tree), base, user, newName)
    {
      var src := SafeUserPath(base, user);
      var renamed := WithName(user, newName);
      if src.None? || renamed.None? {
        return Raised;
      }
      var dst := SafeUserPath(base, renamed.value);
      if dst.None? || dst.value in tree {
        return Raised;
      }
      if src.value !in tree || !IsDir(tree, Parent(dst.value)) || src.value <= dst.value {
        return Raised;
      }
      tree := MoveTree(tree, src.value, dst.value);
      return Returned;
    }

    method SetContent(user: PurePath, content: string) returns (outcome: Outcome)
      modifies this`tree
      ensures Result(tree, outcome) == SetFileContent(old(tree), base, user, content)
    {
      var p := SafeUserPath(base, user);
      if p.None? || !IsFile(tree, p.value) {
        return Raised;
      }
      tree := tree[p.value := File(content)];
      return Returned;
    }
  }

  /* ---- a loop that stops early has the result of the whole list ---- */

  lemma {:induction false} UnsafePrefix(base: Path, users: seq<PurePath>, i: nat)
    requires i <= |users| && SafePaths(base, users[..i]).None?
    ensures SafePaths(base, users).None?
    decreases |users|
  {
    if i < |users| {
      assert users[..|users| - 1][..i] == users[..i];
      UnsafePrefix(base, users[..|users| - 1], i);
    } else {
      assert users[..i] == users;
    }
  }

  lemma {:induction false} StoppedCopy(t: Tree, paths: seq<Path>, i: nat, dest: Path)
    requires i <= |paths| && CopyPaths(t, paths[..i], dest).outcome != Returned
    ensures CopyPaths(t, paths, dest) == CopyPaths(t, paths[..i], dest)
    decreases |paths|
  {
    if i < |paths| {
      assert paths[..|paths| - 1][..i] == paths[..i];
      StoppedCopy(t, paths[..|paths| - 1], i, dest);
    } else {
      assert paths[..i] == paths;
    }
  }

  lemma {:induction false} StoppedLoop(t: Tree, steps: seq<Step>, i: nat)
    requires i <= |steps| && !RunSteps(t, steps[..i]).ok
    ensures RunSteps(t, steps) == RunSteps(t, steps[..i])
    decreases |steps|
  {
    if i < |steps| {
      assert steps[..|steps| - 1][..i] == steps[..i];
      StoppedLoop(t, steps[..|steps| - 1], i);
    } else {
      assert steps[..i] == steps;
    }
  }

  lemma RootsGrow(members: seq<Member>, i: nat)
    requires i < |members|
    ensures var parts := AllParts(ParsePath(members[i].filename));
            ZipRoots(members[..i + 1]) == ZipRoots(members[..i]) + (if parts != [] then {parts[0]} else {})
    ensures members[i].filename == "" ==> AllParts(ParsePath(members[i].filename)) == []
  {
    assert members[..i + 1] == members[..i] + [members[i]];
    if members[i].filename == "" {
      SplitFree(members[i].filename, '/');
    }
  }

  lemma {:induction false} FirstRootIsRoot(members: seq<Member>)
    requires ZipRoots(members) != {}
    ensures FirstRoot(members) in ZipRoots(members)
  {
    if AllParts(ParsePath(members[0].filename)) == [] {
      var r :| r in ZipRoots(members);
      var m :| m in members && AllParts(ParsePath(m.filename)) != [] && r == AllParts(ParsePath(m.filename))[0];
      assert m in members[1..] && r in ZipRoots(members[1..]);
      FirstRootIsRoot(members[1..]);
    } else {
      assert members[0] in members;
    }
  }

  lemma OnlyRootIsFirst(members: seq<Member>)
    requires OneRoot(members)
    ensures ZipRoots(members) == {FirstRoot(members)}
  {
    FirstRootIsRoot(members);
    var rest := ZipRoots(members) - {FirstRoot(members)};
    assert |rest| == 0;
  }
}
