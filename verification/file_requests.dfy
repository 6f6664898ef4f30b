/** Each file request as a whole: when it returns, what it refuses, and what it has done then. */
module FileRequests {
  import opened Text
  import opened Paths
  import opened PathLaws
  import opened FileTree
  import opened Extraction
  import opened FilesService
  import opened FileSafety
  import opened FileEffects
  import opened Archive

  /* ---- several paths at once ---- */

  /** All paths of a request are accepted or none is, and each is taken to its own target. */
  lemma {:induction false} SafePathsExactlyWhen(base: Path, users: seq<PurePath>)
    ensures var paths := SafePaths(base, users);
            && (paths.Some? <==> forall i | 0 <= i < |users| :: SafeUserPath(base, users[i]).Some?)
            && (paths.Some? ==>
                  |paths.value| == |users| && forall i | 0 <= i < |users| :: SafeUserPath(base, users[i]) == Some(paths.value[i]))
  {
    if users != [] {
      var n := |users| - 1;
      SafePathsExactlyWhen(base, users[..n]);
      assert forall i | 0 <= i < n :: users[..n][i] == users[i];
    }
  }

  predicate AllSafe(base: Path, users: seq<PurePath>) {
    forall i | 0 <= i < |users| :: SafeUserPath(base, users[i]).Some?
  }

  /* ---- deleting ---- */

  /** The path lies at or below the target of one of the user paths. */
  predicate UnderUser(base: Path, users: seq<PurePath>, p: Path) {
    exists i | 0 <= i < |users| :: SafeUserPath(base, users[i]).Some? && SafeUserPath(base, users[i]).value <= p
  }

  /** A deletion returns exactly when all its paths are accepted, and then exactly what lies at or below them is gone;
      else it changes nothing. */
  lemma DeleteRequest(t: Tree, base: Path, users: seq<PurePath>, p: Path)
    requires Home(t, base)
    ensures var r := DeleteFiles(t, base, users);
            if AllSafe(base, users) then
              r.outcome == Returned && (p in r.tree <==> p in t && !UnderUser(base, users, p)) && (p in r.tree ==> r.tree[p] == t[p])
            else r == Result(t, Raised)
  {
    SafePathsExactlyWhen(base, users);
    if AllSafe(base, users) {
      var paths := SafePaths(base, users).value;
      SafePathsAreBelow(base, users);
      DeleteIsExact(t, base, paths, p);
      assert UnderSome(paths, p) <==> UnderUser(base, users, p);
    }
  }

  /* ---- writing ---- */

  /** Writing a content returns exactly for a file, whose content it then is; nothing else ever changes. */
  lemma SetContentRequest(t: Tree, base: Path, user: PurePath, content: string)
    ensures var r, p := SetFileContent(t, base, user, content), SafeUserPath(base, user);
            && (r.outcome == Returned <==> p.Some? && IsFile(t, p.value))
            && r.tree.Keys == t.Keys
            && forall q | q in t :: r.tree[q] == if r.outcome == Returned && q == p.value then File(content) else t[q]
  {
  }

  /* ---- renaming ---- */

  lemma PlainRename(t: Tree, base: Path, user: PurePath, newName: string)
    requires Home(t, base) && user.parts != [] && WrittenPart(newName) && newName != ".."
    requires forall n | n in user.parts :: WrittenPart(n) && n != ".."
    ensures var src := base + user.parts;
            var dst := Parent(src) + [newName];
            && |src| == |dst| && src != []
            && RenameFile(t, base, user, newName) ==
               if src in t && dst !in t then Result(MoveTree(t, src, dst), Returned) else Result(t, Raised)
  {
    RenamedPath(base, user, newName);
    var src, dst := base + user.parts, Parent(base + user.parts) + [newName];
    assert base + WithName(user, newName).value.parts == dst && Parent(dst) == Parent(src);
    if src in t {
      assert Attached(t, src);
      if dst !in t { EqualIfPrefix(src, dst); }
    }
  }

  lemma EqualIfPrefix(a: Path, b: Path)
    requires |a| == |b| && a != b
    ensures !(a <= b)
  {
    var i :| 0 <= i < |a| && a[i] != b[i];
  }

  lemma MovedWhole(t: Tree, src: Path, dst: Path)
    requires WellFormed(t) && src in t && dst !in t && |src| == |dst|
    ensures var t' := MoveTree(t, src, dst);
            && src !in t' && SameBelow(t, src, t', dst)
            && forall p | !(dst <= p) && !(src <= p) :: (p in t' <==> p in t) && (p in t ==> t'[p] == t[p])
  {
    var t' := MoveTree(t, src, dst);
    EqualIfPrefix(src, dst);
    EqualIfPrefix(dst, src);
    forall rel ensures (dst + rel in t' <==> src + rel in t) && (src + rel in t ==> t'[dst + rel] == t[src + rel]) {
      MoveEntry(t, src, dst, dst + rel);
      assert (dst + rel)[|dst|..] == rel;
    }
    MoveEntry(t, src, dst, src);
    forall p: Path {:trigger p in t} | !(dst <= p) && !(src <= p) ensures (p in t' <==> p in t) && (p in t ==> t'[p] == t[p]) {
      MoveEntry(t, src, dst, p);
    }
  }

  /** Renaming a plain path returns exactly when it exists, the new name is one component, and nothing has that name
      beside it; then the whole entry has the new name. Else nothing changes. */
  lemma RenameRequest(t: Tree, base: Path, user: PurePath, newName: string)
    requires Home(t, base) && user.parts != [] && newName != ".." && forall n | n in user.parts :: WrittenPart(n) && n != ".."
    ensures var r, src := RenameFile(t, base, user, newName), base + user.parts;
            var dst := Parent(src) + [newName];
            && (r.outcome == Returned <==> WrittenPart(newName) && src in t && dst !in t)
            && (r.outcome != Returned ==> r == Result(t, Raised))
            && (r.outcome == Returned ==>
                  && src !in r.tree && SameBelow(t, src, r.tree, dst)
                  && forall p | !(dst <= p) && !(src <= p) :: (p in r.tree <==> p in t) && (p in t ==> r.tree[p] == t[p]))
  {
    if WrittenPart(newName) {
      PlainRename(t, base, user, newName);
      var src := base + user.parts;
      if src in t && Parent(src) + [newName] !in t {
        MovedWhole(t, src, Parent(src) + [newName]);
      }
    }
  }

  /* ---- copying ---- */

  /** One source: when it is copied, refused, or copied into itself without end. */
  lemma CopyOutcome(t: Tree, base: Path, src: Path, dest: Path)
    requires Home(t, base) && base <= src && base <= dest && ValidNames(dest)
    ensures var r, blocked := CopyOne(t, src, dest), exists q | q in Prefixes(dest) :: IsFile(t, q);
            && (r.outcome == CopiesItself <==> IsDir(t, src) && !blocked && src < dest && dest[..|src| + 1] in t)
            && (r.outcome == Raised <==> (IsFile(t, src) && !IsDir(t, dest)) || (IsDir(t, src) && blocked))
            && (r.outcome == Raised || src !in t ==> r.tree == t)
  {
    if src in t {
      assert Attached(t, src) && Name(src) in src;
      FreshBelow(t, dest, Name(src));
    }
  }

  /** What each source of a copy was when its turn came. */
  function TurnOf(t: Tree, paths: seq<Path>, dest: Path, i: nat): Tree
    requires i <= |paths|
  {
    CopyPaths(t, paths[..i], dest).tree
  }

  /** The source, if it was there at its turn, stands at a fresh path of the destination. */
  ghost predicate CopiedTo(turn: Tree, src: Path, dest: Path, end: Tree) {
    src in turn ==>
      var dst := FreshPath(turn, dest + [Name(src)]);
      dst !in turn && Parent(dst) == dest && SameBelow(turn, src, end, dst)
  }

  ghost predicate CopiedAt(t: Tree, paths: seq<Path>, dest: Path, i: nat, end: Tree)
    requires i < |paths|
  {
    CopiedTo(TurnOf(t, paths, dest, i), paths[i], dest, end)
  }

  lemma CopiedStays(t: Tree, base: Path, turn: Tree, src: Path, dst: Path, last: Path, dest: Path)
    requires Home(t, base) && base <= last && base <= dest && ValidNames(dest) && CopyOne(t, last, dest).outcome == Returned
    requires dst in t && Parent(dst) == dest && dst != [] && SameBelow(turn, src, t, dst)
    ensures SameBelow(turn, src, CopyOne(t, last, dest).tree, dst)
  {
    if last in t {
      CopyIsExact(t, base, last, dest);
      assert Attached(t, last) && Name(last) in last;
      FreshBelow(t, dest, Name(last));
      var free, end := FreshPath(t, dest + [Name(last)]), CopyOne(t, last, dest).tree;
      forall rel
        ensures dst + rel in end <==> src + rel in turn
        ensures src + rel in turn ==> end[dst + rel] == turn[src + rel]
      {
        assert dst <= dst + rel;
        SiblingIsElsewhere(dest, free, dst, rel);
      }
    }
  }

  lemma SiblingIsElsewhere(dest: Path, a: Path, b: Path, rel: Path)
    requires Parent(a) == dest && Parent(b) == dest && a != [] && b != [] && a != b
    ensures !(a <= b + rel) && !(b + rel <= dest)
  {
    assert |a| == |b| == |dest| + 1;
    assert (b + rel)[..|b|] == b;
  }

  lemma LastIsCopied(t: Tree, base: Path, src: Path, dest: Path)
    requires Home(t, base) && base <= src && base <= dest && ValidNames(dest) && CopyOne(t, src, dest).outcome == Returned
    ensures CopiedTo(t, src, dest, CopyOne(t, src, dest).tree)
  {
    if src in t {
      CopyIsExact(t, base, src, dest);
      assert Attached(t, src) && Name(src) in src;
      FreshBelow(t, dest, Name(src));
    }
  }

  lemma TargetIsThere(turn: Tree, src: Path, t: Tree, dst: Path)
    requires src in turn && SameBelow(turn, src, t, dst)
    ensures dst in t
  {
    assert dst + [] == dst && src + [] == src;
  }

  lemma SourceName(t: Tree, base: Path, src: Path, dest: Path)
    requires Home(t, base) && base <= src && src in t && ValidNames(dest)
    ensures FreshPath(t, dest + [Name(src)]) != []
  {
    assert Attached(t, src) && Name(src) in src;
    FreshBelow(t, dest, Name(src));
    assert |FreshPath(t, dest + [Name(src)])| == |dest| + 1;
  }

  lemma CopiedToStays(before: Tree, base: Path, turn: Tree, src: Path, last: Path, dest: Path)
    requires Home(before, base) && Home(turn, base) && base <= src && base <= last && base <= dest && ValidNames(dest)
    requires CopyOne(before, last, dest).outcome == Returned && CopiedTo(turn, src, dest, before)
    ensures CopiedTo(turn, src, dest, CopyOne(before, last, dest).tree)
  {
    if src in turn {
      var dst := FreshPath(turn, dest + [Name(src)]);
      TargetIsThere(turn, src, before, dst);
      SourceName(turn, base, src, dest);
      CopiedStays(before, base, turn, src, dst, last, dest);
    }
  }

  lemma CopyPathsLast(t: Tree, paths: seq<Path>, dest: Path)
    requires paths != [] && CopyPaths(t, paths, dest).outcome == Returned
    ensures var n := |paths| - 1;
            var before := CopyPaths(t, paths[..n], dest);
            before.outcome == Returned && CopyPaths(t, paths, dest) == CopyOne(before.tree, paths[n], dest)
  {
  }

  /** A copy of several paths that returns has copied each of them, in turn, to the destination. */
  lemma {:induction false} CopyPathsCopyEach(t: Tree, base: Path, paths: seq<Path>, dest: Path, i: nat)
    requires Home(t, base) && AllBelow(base, paths) && base <= dest && ValidNames(dest) && i < |paths|
    requires CopyPaths(t, paths, dest).outcome == Returned
    ensures CopiedAt(t, paths, dest, i, CopyPaths(t, paths, dest).tree)
  {
    var n := |paths| - 1;
    var front, last := paths[..n], paths[n];
    CopyPathsLast(t, paths, dest);
    CopyStaysInside(t, base, front, dest);
    var before := CopyPaths(t, front, dest).tree;
    if i == n {
      LastIsCopied(before, base, last, dest);
    } else {
      CopyPathsCopyEach(t, base, front, dest, i);
      CopyStaysInside(t, base, paths[..i], dest);
      assert front[..i] == paths[..i];
      CopiedToStays(before, base, CopyPaths(t, paths[..i], dest).tree, paths[i], last, dest);
    }
  }

  /** A copy request that returns has copied each of its paths to the folder its destination names. */
  lemma CopyRequest(t: Tree, base: Path, users: seq<PurePath>, destination: PurePath, i: nat)
    requires Home(t, base) && i < |users| && forall n | n in destination.parts :: WrittenPart(n)
    ensures var r, dest := CopyFiles(t, base, users, destination), SafeUserPath(base, destination);
            && (!AllSafe(base, users) || dest.None? ==> r == Result(t, Raised))
            && (r.outcome == Returned ==>
                  && SafePaths(base, users).Some? && dest.Some? && |SafePaths(base, users).value| == |users|
                  && SafePaths(base, users).value[i] == SafeUserPath(base, users[i]).value
                  && CopiedAt(t, SafePaths(base, users).value, dest.value, i, r.tree))
  {
    SafePathsExactlyWhen(base, users);
    var dest := SafeUserPath(base, destination);
    if CopyFiles(t, base, users, destination).outcome == Returned {
      SafePathsAreBelow(base, users);
      ResolveKeepsValidNames(base, destination.parts);
      CopyPathsCopyEach(t, base, SafePaths(base, users).value, dest.value, i);
    }
  }

  /* ---- uploading ---- */

  /** The tree once the directories for a wanted path are there; None if one of them cannot be. */
  function WithFolders(t: Tree, dest: Path, wanted: Path): Option<Tree> {
    match MakeDirs(t, dest)
    case None => None
    case Some(t1) => MakeDirs(t1, Parent(wanted))
  }

  /** The upload's two files are there. */
  predicate UploadWaits(t: Tree, uploads: Path, fileId: string) {
    IsFile(t, uploads + [Stem(fileId) + ".info"]) && uploads + [fileId] in t && Stem(fileId) + ".info" != fileId
  }

  lemma FinishReturnsExactlyWhen(t: Tree, uploads: Path, fileId: string, target: Path)
    requires WellFormed(t) && target != [] && IsDir(t, Parent(target)) && !(uploads <= target)
    ensures FinishUpload(t, uploads, fileId, target).outcome == Returned <==> UploadWaits(t, uploads, fileId)
  {
    var tmp, info := uploads + [fileId], uploads + [Stem(fileId) + ".info"];
    assert uploads <= tmp && uploads <= info;
    if IsFile(t, info) && tmp in t {
      assert tmp[|uploads|] == fileId && info[|uploads|] == Stem(fileId) + ".info";
      assert info <= tmp <==> Stem(fileId) + ".info" == fileId;
      assert Parent(target) <= target;
      assert !(info <= Parent(target)) && !(tmp <= target);
    }
  }

  /** An upload that fails at the end has used up the information file, if there was one, and nothing else. */
  lemma FailedFinish(t: Tree, uploads: Path, fileId: string, target: Path, q: Path)
    requires FinishUpload(t, uploads, fileId, target).outcome != Returned
    ensures var t', info := FinishUpload(t, uploads, fileId, target).tree, uploads + [Stem(fileId) + ".info"];
            && (q in t' <==> q in t && !(IsFile(t, info) && info <= q)) && (q in t' ==> t'[q] == t[q])
  {
  }

  lemma FoldersDoNotWait(t: Tree, t': Tree, base: Path, uploads: Path, fileId: string)
    requires SameOutside(t, t', base) && Apart(base, uploads)
    ensures UploadWaits(t', uploads, fileId) <==> UploadWaits(t, uploads, fileId)
  {
    var tmp, info := uploads + [fileId], uploads + [Stem(fileId) + ".info"];
    assert uploads <= tmp && uploads <= info;
    if base <= tmp { PrefixesCompare(base, uploads, tmp); }
    if base <= info { PrefixesCompare(base, uploads, info); }
  }

  lemma WantedFolders(t: Tree, base: Path, dest: Path, wanted: Path)
    requires Home(t, base) && base <= dest <= wanted && wanted != base && ValidNames(dest) && ValidNames(wanted)
    requires WithFolders(t, dest, wanted).Some?
    ensures var t2 := WithFolders(t, dest, wanted).value;
            Home(t2, base) && SameOutside(t, t2, base) && Keeps(t, t2) && IsDir(t2, Parent(wanted))
  {
    MakeDirsBelow(t, base, dest);
    ParentIsPrefix(base, wanted);
    MakeDirsBelow(MakeDirs(t, dest).value, base, Parent(wanted));
  }

  lemma UploadUnfolds(t: Tree, base: Path, uploads: Path, fileId: string, filename: string, destination: PurePath, dest: Path, wanted: Path)
    requires SafeUserPath(base, destination) == Some(dest) && SafeUserPath(dest, ParsePath(filename)) == Some(wanted)
    ensures var r, t2 := UploadFile(t, base, uploads, fileId, filename, destination), WithFolders(t, dest, wanted);
            if t2.Some? then r == FinishUpload(t2.value, uploads, fileId, FreshPath(t2.value, wanted)) else r.outcome == Raised
  {
  }

  lemma FinishInFolder(t: Tree, base: Path, uploads: Path, fileId: string, wanted: Path)
    requires Home(t, base) && Apart(base, uploads) && base <= wanted && wanted != base && ValidNames(wanted) && IsDir(t, Parent(wanted))
    ensures var r, target := FinishUpload(t, uploads, fileId, FreshPath(t, wanted)), FreshPath(t, wanted);
            && (r.outcome == Returned <==> UploadWaits(t, uploads, fileId))
            && (r.outcome == Returned ==> SameBelow(t, uploads + [fileId], r.tree, target))
            && (wanted !in t ==> target == wanted)
  {
    UploadTarget(t, base, wanted);
    FreshPathIsFirstFree(t, wanted, 1);
    var target := FreshPath(t, wanted);
    assert !(uploads <= target) by {
      if uploads <= target { PrefixesCompare(uploads, base, target); }
    }
    FinishReturnsExactlyWhen(t, uploads, fileId, target);
    if UploadWaits(t, uploads, fileId) {
      UploadIsExact(t, uploads, fileId, target);
    }
  }

  /** An upload with a name below the data folder returns exactly when its paths are accepted, its folders can be made
      and its two files wait; then the waiting entry stands at the wanted path, or the first free numbered one. */
  lemma UploadRequest(t: Tree, base: Path, uploads: Path, fileId: string, filename: string, destination: PurePath, dest: Path, wanted: Path)
    requires Home(t, base) && Apart(base, uploads) && forall n | n in destination.parts :: WrittenPart(n)
    requires SafeUserPath(base, destination) == Some(dest) && SafeUserPath(dest, ParsePath(filename)) == Some(wanted) && wanted != base
    ensures var r := UploadFile(t, base, uploads, fileId, filename, destination);
            && (r.outcome == Returned <==> WithFolders(t, dest, wanted).Some? && UploadWaits(t, uploads, fileId))
            && (r.outcome == Returned ==>
                  var t2 := WithFolders(t, dest, wanted).value;
                  && SameBelow(t2, uploads + [fileId], r.tree, FreshPath(t2, wanted))
                  && (wanted !in t && wanted != dest ==> FreshPath(t2, wanted) == wanted))
  {
    ResolveKeepsValidNames(base, destination.parts);
    ResolveKeepsValidNames(dest, ParsePath(filename).parts);
    UploadUnfolds(t, base, uploads, fileId, filename, destination, dest, wanted);
    if WithFolders(t, dest, wanted).Some? {
      var t2 := WithFolders(t, dest, wanted).value;
      WantedFolders(t, base, dest, wanted);
      FoldersDoNotWait(t, t2, base, uploads, fileId);
      FinishInFolder(t2, base, uploads, fileId, wanted);
      if wanted !in t && wanted != dest {
        WantedIsFree(t, dest, wanted);
      }
    }
  }

  lemma WantedIsFree(t: Tree, dest: Path, wanted: Path)
    requires WithFolders(t, dest, wanted).Some? && dest <= wanted && wanted != dest && wanted !in t && wanted != []
    ensures wanted !in WithFolders(t, dest, wanted).value
  {
    var t1 := MakeDirs(t, dest).value;
    MakeDirsContents(t, dest);
    MakeDirsContents(t1, Parent(wanted));
    assert |Parent(wanted)| < |wanted|;
  }

  /** An upload to a refused destination changes nothing. */
  lemma RefusedDestination(t: Tree, base: Path, uploads: Path, fileId: string, filename: string, destination: PurePath)
    requires SafeUserPath(base, destination).None?
    ensures UploadFile(t, base, uploads, fileId, filename, destination) == Result(t, Raised)
  {
  }

  /** An upload whose name is refused leaves the destination's folders, if they can be made, and nothing else. */
  lemma RefusedName(t: Tree, base: Path, uploads: Path, fileId: string, filename: string, destination: PurePath, dest: Path)
    requires SafeUserPath(base, destination) == Some(dest) && SafeUserPath(dest, ParsePath(filename)).None?
    ensures var r := UploadFile(t, base, uploads, fileId, filename, destination);
            && r.outcome == Raised && (MakeDirs(t, dest).None? ==> r.tree == t)
            && (MakeDirs(t, dest).Some? ==>
                  Keeps(t, r.tree) && IsDir(r.tree, dest) && forall q :: q in r.tree <==> q in t || q <= dest)
  {
    if MakeDirs(t, dest).Some? {
      MakeDirsContents(t, dest);
    }
  }

  /* ---- extracting ---- */

  /** The archive's name ends in ".zip", in letters of any case. */
  lemma ZipNameExactlyWhen(front: string, extension: string)
    requires '.' !in extension && front != "" && extension != ""
    ensures ZipName(front + "." + extension) <==>
            |extension| == 3 && extension[0] in "zZ" && extension[1] in "iI" && extension[2] in "pP"
  {
    StemAndSuffix(front, extension);
    assert Suffix(front + "." + extension) == "." + extension;
    assert forall c: char :: (LowerChar(c) == 'z' <==> c in "zZ") && (LowerChar(c) == 'i' <==> c in "iI") && (LowerChar(c) == 'p' <==> c in "pP") by {
      forall c: char ensures (LowerChar(c) == 'z' <==> c in "zZ") && (LowerChar(c) == 'i' <==> c in "iI") && (LowerChar(c) == 'p' <==> c in "pP") {
        LowerCases(c);
      }
    }
  }

  lemma LowerCases(c: char)
    ensures LowerChar(c) == 'z' <==> c in "zZ"
    ensures LowerChar(c) == 'i' <==> c in "iI"
    ensures LowerChar(c) == 'p' <==> c in "pP"
  {
    assert "zZ"[0] == 'z' && "zZ"[1] == 'Z' && "iI"[0] == 'i' && "iI"[1] == 'I' && "pP"[0] == 'p' && "pP"[1] == 'P';
  }

  /** An extraction returns exactly for a readable archive file that can be extracted; a refused one changes nothing. */
  lemma ExtractRequest(t: Tree, base: Path, user: PurePath, members: Option<seq<Member>>)
    ensures var r, a := ExtractArchive(t, base, user, members), SafeUserPath(base, user);
            if a.Some? && IsFile(t, a.value) && ZipName(Name(a.value)) && members.Some? then
              var done := ExtractZip(t, a.value, members.value);
              r.tree == done.tree && (r.outcome == Returned <==> done.ok) && (r.outcome == Raised <==> !done.ok)
            else r == Result(t, Raised)
  {
  }

  /* ---- downloading ---- */

  /** Exactly the download of one file is that file itself; every other one is an archive. */
  lemma DownloadKind(t: Tree, walk: Path -> seq<Path>, paths: seq<Path>, p: Path)
    ensures DownloadOf(t, walk, paths) == SingleFile(p) <==> paths == [p] && IsFile(t, p)
  {
  }
}
