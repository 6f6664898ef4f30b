/** What any run of file operations keeps: a proper tree, and everything outside the data folder. */
module FileSafety {
  import opened Text
  import opened Paths
  import opened FileTree
  import opened Extraction
  import opened FilesService

  /** A request as it arrives, with its paths still texts. */
  datatype Request =
    | Delete(paths: seq<string>)
    | Copy(paths: seq<string>, destination: string)
    | Upload(fileId: string, filename: string, destination: string)
    | Extract(path: string, members: Option<seq<Member>>)
    | Rename(path: string, newName: string)
    | SetContent(path: string, content: string)

  function ParsePaths(texts: seq<string>): seq<PurePath> {
    seq(|texts|, i requires 0 <= i < |texts| => ParsePath(texts[i]))
  }

  function Apply(t: Tree, base: Path, uploads: Path, r: Request): Result {
    match r
    case Delete(paths) => DeleteFiles(t, base, ParsePaths(paths))
    case Copy(paths, destination) => CopyFiles(t, base, ParsePaths(paths), ParsePath(destination))
    case Upload(fileId, filename, destination) => UploadFile(t, base, uploads, fileId, filename, ParsePath(destination))
    case Extract(path, members) => ExtractArchive(t, base, ParsePath(path), members)
    case Rename(path, newName) => RenameFile(t, base, ParsePath(path), newName)
    case SetContent(path, content) => SetFileContent(t, base, ParsePath(path), content)
  }

  function Run(t: Tree, base: Path, uploads: Path, requests: seq<Request>): Tree {
    if requests == [] then t
    else Apply(Run(t, base, uploads, requests[..|requests| - 1]), base, uploads, requests[|requests| - 1]).tree
  }

  /** The folder the service works in: its parent is there, and it is no archive itself. */
  ghost predicate Home(t: Tree, base: Path) {
    WellFormed(t) && base != [] && ValidNames(base) && !ZipName(Name(base)) && IsDir(t, Parent(base))
  }

  predicate Apart(base: Path, uploads: Path) {
    !(base <= uploads) && !(uploads <= base)
  }

  /** Outside the data folder nothing changes, except that upload temporaries may be consumed. */
  ghost predicate OutsideKept(t: Tree, t': Tree, base: Path, uploads: Path) {
    forall p | !(base <= p) ::
      && (p in t' ==> p in t && t'[p] == t[p])
      && (p in t && !(uploads <= p && p != uploads) ==> p in t')
  }

  /** No entry of the data folder is changed or removed. */
  ghost predicate KeepsBelow(t: Tree, t': Tree, base: Path) {
    forall p | p in t && base <= p :: p in t' && t'[p] == t[p]
  }

  /** The destination and the name of an upload come to the data folder itself. */
  predicate NamesBase(base: Path, filename: string, destination: PurePath) {
    SafeUserPath(base, destination) == Some(base) && SafeUserPath(base, ParsePath(filename)) == Some(base)
  }

  /** The target is the data folder itself: an upload whose name comes to nothing, an archive whose container does. */
  predicate Escapes(base: Path, r: Request) {
    match r
    case Upload(_, filename, destination) => NamesBase(base, filename, ParsePath(destination))
    case Extract(path, Some(members)) =>
      var archive := SafeUserPath(base, ParsePath(path));
      archive.Some? && Parent(archive.value) == base
      && SafeUserPath(base, ParsePath(ContainerName(archive.value, members))) == Some(base)
    case _ => false
  }

  /** The upload's files are there to be moved: the data folder is no file, the information file is one, and the
      temporary entry is another entry. */
  predicate UploadReady(t: Tree, base: Path, uploads: Path, fileId: string) {
    && !IsFile(t, base) && IsFile(t, uploads + [Stem(fileId) + ".info"])
    && uploads + [fileId] in t && Stem(fileId) + ".info" != fileId
  }

  /** The request changes something outside the data folder: an escaping upload whose files are there, or an escaping
      extraction of a file with an archive's name. */
  predicate LeavesFolder(t: Tree, base: Path, uploads: Path, r: Request) {
    && Escapes(base, r)
    && match r
       case Upload(fileId, _, _) => UploadReady(t, base, uploads, fileId)
       case Extract(path, _) =>
         var archive := SafeUserPath(base, ParsePath(path)).value; IsFile(t, archive) && ZipName(Name(archive))
       case _ => false
  }

  /* ---- paths ---- */

  lemma PrefixesCompare(a: Path, b: Path, p: Path)
    requires a <= p && b <= p
    ensures a <= b || b <= a
  {
    if |a| <= |b| {
      assert a == b[..|a|];
    } else {
      assert b == a[..|b|];
    }
  }

  lemma SafePathIsValid(base: Path, text: string)
    requires ValidNames(base)
    ensures SafeUserPath(base, ParsePath(text)).Some? ==> ValidNames(SafeUserPath(base, ParsePath(text)).value)
  {
    ResolveKeepsValidNames(base, ParsePath(text).parts);
  }

  ghost predicate AllBelow(base: Path, paths: seq<Path>) {
    forall i | 0 <= i < |paths| :: base <= paths[i]
  }

  lemma {:induction false} SafePathsAreBelow(base: Path, users: seq<PurePath>)
    requires SafePaths(base, users).Some?
    ensures AllBelow(base, SafePaths(base, users).value)
  {
    if users != [] {
      SafePathsAreBelow(base, users[..|users| - 1]);
    }
  }

  /** Making directories below the data folder changes nothing outside it. */
  lemma MakeDirsBelow(t: Tree, base: Path, p: Path)
    requires Home(t, base) && base <= p && ValidNames(p) && MakeDirs(t, p).Some?
    ensures Home(MakeDirs(t, p).value, base) && SameOutside(t, MakeDirs(t, p).value, base) && Keeps(t, MakeDirs(t, p).value)
    ensures IsDir(MakeDirs(t, p).value, p)
  {
    MakeDirsAddsAncestors(t, p);
    forall q | !(base <= q) && q <= p ensures q in t {
      PrefixesCompare(base, q, p);
      ParentIsPrefix(q, base);
      if q != Parent(base) { AncestorsAreDirs(t, Parent(base), q); }
    }
  }

  lemma HomeStays(t: Tree, t': Tree, base: Path)
    requires Home(t, base) && WellFormed(t') && SameOutside(t, t', base)
    ensures Home(t', base)
  {
    assert |Parent(base)| < |base|;
  }

  /* ---- the operations ---- */

  lemma {:induction false} DeleteStaysInside(t: Tree, base: Path, paths: seq<Path>)
    requires Home(t, base) && AllBelow(base, paths)
    ensures Home(DeletePaths(t, paths), base) && SameOutside(t, DeletePaths(t, paths), base)
  {
    if paths != [] {
      var front, p := paths[..|paths| - 1], paths[|paths| - 1];
      DeleteStaysInside(t, base, front);
      RemoveTreeKeepsTree(DeletePaths(t, front), p);
      HomeStays(t, DeletePaths(t, paths), base);
    }
  }

  lemma FreshBelow(t: Tree, dir: Path, name: string)
    requires ValidNames(dir) && ValidName(name)
    ensures var dst := FreshPath(t, dir + [name]);
            ValidNames(dst) && dst !in t && Parent(dst) == dir && dir <= dst && dst != dir
  {
    var path := dir + [name];
    FreshPathIsValid(t, path);
    FreshPathIsFirstFree(t, path, 1);
    assert Parent(path) == dir;
    assert |FreshPath(t, path)| == |path|;
  }

  lemma CopyOneStaysInside(t: Tree, base: Path, src: Path, dest: Path)
    requires Home(t, base) && base <= src && base <= dest && ValidNames(dest)
    ensures var t' := CopyOne(t, src, dest).tree; Home(t', base) && SameOutside(t, t', base) && Keeps(t, t')
  {
    if src in t {
      assert Attached(t, src) && Name(src) in src;
      FreshBelow(t, dest, Name(src));
      var dst := FreshPath(t, dest + [Name(src)]);
      if IsDir(t, src) {
        if MakeDirs(t, dest).Some? {
          MakeDirsBelow(t, base, dest);
          MakeDirsContents(t, dest);
          CopyTreeKeepsTree(MakeDirs(t, dest).value, t, src, dst);
        }
      } else if WriteFile(t, dst, t[src].content).Some? {
        WriteFileKeepsTree(t, dst, t[src].content);
      }
      HomeStays(t, CopyOne(t, src, dest).tree, base);
    }
  }

  lemma {:induction false} CopyStaysInside(t: Tree, base: Path, paths: seq<Path>, dest: Path)
    requires Home(t, base) && AllBelow(base, paths) && base <= dest && ValidNames(dest)
    ensures var t' := CopyPaths(t, paths, dest).tree; Home(t', base) && SameOutside(t, t', base) && Keeps(t, t')
  {
    if paths != [] {
      CopyStaysInside(t, base, paths[..|paths| - 1], dest);
      CopyOneStaysInside(CopyPaths(t, paths[..|paths| - 1], dest).tree, base, paths[|paths| - 1], dest);
    }
  }

  /** Apart from what lies at or below `target`, entries are at most consumed, and only below the upload folder. */
  ghost predicate MovedIn(t: Tree, t': Tree, target: Path, uploads: Path) {
    forall p | !(target <= p) ::
      && (p in t' ==> p in t && t'[p] == t[p])
      && (p in t && !(uploads <= p && p != uploads) ==> p in t')
  }

  /** Entries are at most consumed, and only below the upload folder. */
  ghost predicate OnlyConsumed(t: Tree, t': Tree, uploads: Path) {
    forall p: Path {:trigger p in t} {:trigger p in t'} ::
      && (p in t' ==> p in t && t'[p] == t[p])
      && (p in t && !(uploads <= p && p != uploads) ==> p in t')
  }

  lemma BelowUploads(uploads: Path, name: string, p: Path)
    requires uploads + [name] <= p
    ensures uploads <= p && p != uploads
  {
    assert uploads <= uploads + [name];
  }

  /** The upload's last part moves one fresh entry in and consumes only what lies below the upload folder. */
  lemma FinishUploadEffect(t: Tree, uploads: Path, fileId: string, target: Path)
    requires WellFormed(t) && ValidNames(target) && target !in t && target != []
    ensures var r := FinishUpload(t, uploads, fileId, target);
            && WellFormed(r.tree) && MovedIn(t, r.tree, target, uploads)
            && if r.outcome == Returned then target in r.tree else OnlyConsumed(t, r.tree, uploads)
  {
    var r := FinishUpload(t, uploads, fileId, target);
    var tmp, info := uploads + [fileId], uploads + [Stem(fileId) + ".info"];
    if IsFile(t, info) {
      var t1 := RemoveTree(t, info);
      RemoveTreeKeepsTree(t, info);
      forall p: Path {:trigger p in t}
        ensures info <= p || tmp <= p ==> uploads <= p && p != uploads
      {
        if info <= p || tmp <= p {
          BelowUploads(uploads, if info <= p then Stem(fileId) + ".info" else fileId, p);
        }
      }
      if r.outcome == Returned {
        MoveTreeKeepsTree(t1, tmp, target);
        MoveEntry(t1, tmp, target, target);
        assert Transfer(target, target, tmp) == tmp;
        forall p | !(target <= p)
          ensures p in r.tree ==> p in t && r.tree[p] == t[p]
          ensures p in t && !(uploads <= p && p != uploads) ==> p in r.tree
        {
          MoveEntry(t1, tmp, target, p);
        }
      }
    }
  }

  /** Every entry that is not below the upload folder is there, unchanged. */
  ghost predicate EntriesStay(t: Tree, t': Tree, uploads: Path) {
    forall p: Path {:trigger p in t} {:trigger p in t'} |
      p in t && !(uploads <= p && p != uploads) :: p in t' && t'[p] == t[p]
  }

  lemma EntriesStayOn(t: Tree, t1: Tree, t2: Tree, uploads: Path)
    requires Keeps(t, t1) && EntriesStay(t1, t2, uploads)
    ensures EntriesStay(t, t2, uploads)
  {
  }

  lemma MovedInKeepsEntries(t: Tree, t': Tree, uploads: Path, target: Path)
    requires WellFormed(t) && target !in t && MovedIn(t, t', target, uploads)
    ensures EntriesStay(t, t', uploads)
  {
    NothingBelow(t, target);
  }

  /** Nothing of the data folder is consumed by an upload. */
  lemma MovedInKeepsBelow(t: Tree, t': Tree, base: Path, uploads: Path, target: Path)
    requires WellFormed(t) && Apart(base, uploads) && target !in t && MovedIn(t, t', target, uploads)
    ensures KeepsBelow(t, t', base)
  {
    NothingBelow(t, target);
    forall p | p in t && base <= p ensures p in t' && t'[p] == t[p] {
      if uploads <= p { PrefixesCompare(base, uploads, p); }
    }
  }

  /** The target an upload is moved to, once its directories are there. */
  lemma UploadTarget(t: Tree, base: Path, wanted: Path)
    requires Home(t, base) && base <= wanted && ValidNames(wanted)
    ensures var target := FreshPath(t, wanted);
            && ValidNames(target) && target !in t && target != []
            && (wanted != base ==> base <= target)
            && (wanted == base && wanted in t ==> !(base <= target) && Parent(target) == Parent(base))
  {
    FreshPathIsValid(t, wanted);
    FreshPathIsFirstFree(t, wanted, 1);
    var target := FreshPath(t, wanted);
    if wanted != base {
      ParentIsPrefix(base, wanted);
      assert base <= Parent(target) <= target;
    } else if wanted in t {
      assert |target| == |base|;
    }
  }

  /** The upload's own ancestors stay, so the data folder keeps its place. */
  lemma MovedInKeepsHome(t: Tree, t': Tree, base: Path, uploads: Path, target: Path)
    requires Home(t, base) && WellFormed(t') && Apart(base, uploads) && target !in t && MovedIn(t, t', target, uploads)
    ensures Home(t', base)
  {
    var up := Parent(base);
    assert up <= base;
    assert !(target <= up) by {
      if target <= up && target != up { AncestorsAreDirs(t, up, target); }
    }
    assert !(uploads <= up);
  }

  lemma MovedInBelowKeepsOutside(t: Tree, t2: Tree, t3: Tree, base: Path, uploads: Path, target: Path)
    requires SameOutside(t, t2, base) && MovedIn(t2, t3, target, uploads) && base <= target
    ensures OutsideKept(t, t3, base, uploads)
  {
  }

  lemma MovedInBesideChangesOutside(t: Tree, t2: Tree, t3: Tree, base: Path, uploads: Path, target: Path)
    requires SameOutside(t, t2, base) && !(base <= target) && target !in t2 && target in t3
    ensures !OutsideKept(t, t3, base, uploads)
  {
    assert target !in t;
  }

  lemma ConsumedKeepsOutside(t: Tree, t2: Tree, t3: Tree, base: Path, uploads: Path)
    requires SameOutside(t, t2, base) && OnlyConsumed(t2, t3, uploads)
    ensures OutsideKept(t, t3, base, uploads)
  {
  }

  /** The directories made for the target are the data folder's own. */
  lemma UploadDirs(t1: Tree, base: Path, dest: Path, wanted: Path)
    requires Home(t1, base) && base <= dest <= wanted && ValidNames(wanted) && IsDir(t1, dest)
    requires MakeDirs(t1, Parent(wanted)).Some?
    ensures var t2 := MakeDirs(t1, Parent(wanted)).value;
            Home(t2, base) && SameOutside(t1, t2, base) && Keeps(t1, t2)
  {
    ParentIsPrefix(base, wanted);
    if wanted != base {
      MakeDirsBelow(t1, base, Parent(wanted));
    } else {
      ExistingDirs(t1, Parent(base));
    }
  }

  lemma UploadLastPart(t: Tree, t2: Tree, base: Path, uploads: Path, fileId: string, wanted: Path)
    requires Home(t2, base) && SameOutside(t, t2, base) && Keeps(t, t2) && Apart(base, uploads)
    requires base <= wanted && ValidNames(wanted) && (wanted == base ==> base in t2)
    ensures var r := FinishUpload(t2, uploads, fileId, FreshPath(t2, wanted));
            && Home(r.tree, base) && KeepsBelow(t, r.tree, base) && EntriesStay(t, r.tree, uploads)
            && (OutsideKept(t, r.tree, base, uploads) <==> wanted != base || r.outcome != Returned)
  {
    UploadTarget(t2, base, wanted);
    var target := FreshPath(t2, wanted);
    var r := FinishUpload(t2, uploads, fileId, target);
    FinishUploadEffect(t2, uploads, fileId, target);
    MovedInKeepsBelow(t2, r.tree, base, uploads, target);
    MovedInKeepsHome(t2, r.tree, base, uploads, target);
    MovedInKeepsEntries(t2, r.tree, uploads, target);
    EntriesStayOn(t, t2, r.tree, uploads);
    if wanted != base {
      MovedInBelowKeepsOutside(t, t2, r.tree, base, uploads, target);
    } else if r.outcome == Returned {
      MovedInBesideChangesOutside(t, t2, r.tree, base, uploads, target);
    } else {
      ConsumedKeepsOutside(t, t2, r.tree, base, uploads);
    }
  }

  /** From the moment the destination is a directory. */
  lemma UploadIntoDirectory(t: Tree, t1: Tree, base: Path, uploads: Path, fileId: string, filename: string, dest: Path)
    requires Home(t1, base) && SameOutside(t, t1, base) && Keeps(t, t1) && Apart(base, uploads)
    requires base <= dest && ValidNames(dest) && IsDir(t1, dest)
    ensures var wanted := SafeUserPath(dest, ParsePath(filename));
            wanted.Some? && MakeDirs(t1, Parent(wanted.value)).Some? ==>
              var t2 := MakeDirs(t1, Parent(wanted.value)).value;
              var r := FinishUpload(t2, uploads, fileId, FreshPath(t2, wanted.value));
              && Home(r.tree, base) && KeepsBelow(t, r.tree, base) && EntriesStay(t, r.tree, uploads)
              && (OutsideKept(t, r.tree, base, uploads) <==> wanted.value != base || r.outcome != Returned)
  {
    SafePathIsValid(dest, filename);
    var wanted := SafeUserPath(dest, ParsePath(filename));
    if wanted.Some? && MakeDirs(t1, Parent(wanted.value)).Some? {
      UploadDirs(t1, base, dest, wanted.value);
      assert wanted.value == base ==> dest == base;
      UploadLastPart(t, MakeDirs(t1, Parent(wanted.value)).value, base, uploads, fileId, wanted.value);
    }
  }

  lemma StayedInside(t: Tree, t': Tree, base: Path, uploads: Path)
    requires SameOutside(t, t', base) && Keeps(t, t')
    ensures OutsideKept(t, t', base, uploads) && KeepsBelow(t, t', base) && EntriesStay(t, t', uploads)
  {
  }

  lemma UploadFileEffect(t: Tree, base: Path, uploads: Path, fileId: string, filename: string, destination: PurePath)
    requires Home(t, base) && Apart(base, uploads)
    requires SafeUserPath(base, destination).Some? ==> ValidNames(SafeUserPath(base, destination).value)
    ensures var r := UploadFile(t, base, uploads, fileId, filename, destination);
            && Home(r.tree, base) && KeepsBelow(t, r.tree, base) && EntriesStay(t, r.tree, uploads)
            && (OutsideKept(t, r.tree, base, uploads) <==> !NamesBase(base, filename, destination) || r.outcome != Returned)
  {
    var dest := SafeUserPath(base, destination);
    if dest.Some? && MakeDirs(t, dest.value).Some? {
      MakeDirsBelow(t, base, dest.value);
      StayedInside(t, MakeDirs(t, dest.value).value, base, uploads);
      UploadIntoDirectory(t, MakeDirs(t, dest.value).value, base, uploads, fileId, filename, dest.value);
      var wanted := SafeUserPath(dest.value, ParsePath(filename));
      assert wanted == Some(base) ==> dest.value == base;
    }
  }

  /** Making the data folder works unless it is a file, and adds nothing else. */
  lemma MakingFolder(t: Tree, base: Path)
    requires Home(t, base)
    ensures MakeDirs(t, base) == if IsFile(t, base) then None else Some(t[base := Dir])
    ensures !IsFile(t, base) ==> MakeDirs(t[base := Dir], Parent(base)) == Some(t[base := Dir])
  {
    if IsFile(t, base) {
      assert base in Prefixes(base);
    } else {
      if base in t {
        ExistingDirs(t, base);
        assert t[base := Dir] == t;
      } else {
        ContainerIsMade(t, base);
      }
      assert |Parent(base)| < |base|;
      ExistingDirs(t[base := Dir], Parent(base));
    }
  }

  /** What lies below the upload folder is not above an entry beside the data folder. */
  lemma UploadNotAbove(base: Path, uploads: Path, name: string, target: Path)
    requires Apart(base, uploads) && base != [] && Parent(target) == Parent(base) && target != uploads + [name]
    ensures !(uploads + [name] <= target)
  {
    if uploads + [name] <= target {
      ParentIsPrefix(uploads + [name], target);
    }
    NotAboveBase(base, uploads, name);
  }

  lemma NotAboveBase(base: Path, uploads: Path, name: string)
    requires Apart(base, uploads) && base != []
    ensures !(uploads + [name] <= Parent(base))
  {
    assert uploads <= uploads + [name] && Parent(base) <= base;
  }

  /** The last part of an upload to the data folder itself returns exactly when the upload's files are there. */
  lemma FinishBesideExactlyWhen(t: Tree, base: Path, uploads: Path, fileId: string)
    requires Home(t, base) && Apart(base, uploads) && IsDir(t, base)
    ensures FinishUpload(t, uploads, fileId, FreshPath(t, base)).outcome == Returned <==> UploadReady(t, base, uploads, fileId)
  {
    UploadTarget(t, base, base);
    var target, tmp, info := FreshPath(t, base), uploads + [fileId], uploads + [Stem(fileId) + ".info"];
    if IsFile(t, info) && tmp in t {
      assert tmp[|uploads|] == fileId && info[|uploads|] == Stem(fileId) + ".info";
      assert info <= tmp <==> Stem(fileId) + ".info" == fileId;
      NotAboveBase(base, uploads, Stem(fileId) + ".info");
      UploadNotAbove(base, uploads, fileId, target);
      assert IsDir(RemoveTree(t, info), Parent(base));
    }
  }

  lemma UploadBesideExactlyWhen(t: Tree, base: Path, uploads: Path, fileId: string, filename: string, destination: PurePath)
    requires Home(t, base) && Apart(base, uploads) && NamesBase(base, filename, destination)
    ensures UploadFile(t, base, uploads, fileId, filename, destination).outcome == Returned <==> UploadReady(t, base, uploads, fileId)
  {
    MakingFolder(t, base);
    if !IsFile(t, base) {
      var t1 := t[base := Dir];
      MakeDirsBelow(t, base, base);
      FinishBesideExactlyWhen(t1, base, uploads, fileId);
      assert UploadReady(t1, base, uploads, fileId) <==> UploadReady(t, base, uploads, fileId) by {
        assert uploads <= uploads + [fileId] && uploads <= uploads + [Stem(fileId) + ".info"];
      }
    }
  }

  /** An upload keeps everything outside the data folder but its temporaries exactly when its name does not come to
      the data folder itself or its files are not there: else it lands beside the folder. No existing file of the
      folder is touched. */
  lemma UploadEffect(t: Tree, base: Path, uploads: Path, r: Request)
    requires Home(t, base) && Apart(base, uploads) && r.Upload?
    ensures var done := Apply(t, base, uploads, r);
            && Home(done.tree, base) && KeepsBelow(t, done.tree, base) && EntriesStay(t, done.tree, uploads)
            && (OutsideKept(t, done.tree, base, uploads) <==> !LeavesFolder(t, base, uploads, r))
  {
    SafePathIsValid(base, r.destination);
    var destination := ParsePath(r.destination);
    UploadFileEffect(t, base, uploads, r.fileId, r.filename, destination);
    if NamesBase(base, r.filename, destination) {
      UploadBesideExactlyWhen(t, base, uploads, r.fileId, r.filename, destination);
    }
  }

  /** Making directories that are there changes nothing. */
  lemma ExistingDirs(t: Tree, p: Path)
    requires WellFormed(t) && IsDir(t, p)
    ensures MakeDirs(t, p) == Some(t)
  {
    forall q | q in Prefixes(p) ensures q in t && t[q] == Dir {
      if q != p { AncestorsAreDirs(t, p, q); }
    }
    assert MakeDirs(t, p).value == t;
  }

  /* ---- extraction ---- */

  /** A container name is one component, or nothing but a root. */
  predicate ContainerText(name: string) {
    '/' !in name || name == "/" || name == "//"
  }

  lemma {:induction false} FirstRootIsContainerText(members: seq<Member>)
    ensures ContainerText(FirstRoot(members))
  {
    if members != [] {
      var p := ParsePath(members[0].filename);
      if AllParts(p) == [] {
        FirstRootIsContainerText(members[1..]);
      } else if p.root == "" {
        assert WrittenPart(p.parts[0]);
      }
    }
  }

  lemma ContainerPlace(dir: Path, name: string)
    requires dir != [] && ValidNames(dir) && ContainerText(name)
    ensures var w := SafeUserPath(dir, ParsePath(name));
            w.Some? ==> ValidNames(w.value) && (w.value == dir || (w.value != [] && Parent(w.value) == dir))
  {
    if '/' !in name {
      SplitFree(name, '/');
      if name == "" || name == "." {
        NothingKept([name]);
      } else {
        KeptOfKept([name]);
        if name == ".." {
          assert [name][1..] == [] && !(dir <= Parent(dir));
          assert Resolve(dir, [name]) == Parent(dir);
        } else {
          ResolvePlain(dir, [name]);
          assert Parent(dir + [name]) == dir;
        }
      }
    } else {
      SplitPrefix("", '/', ""); SplitFree("", '/'); SplitPrefix("", '/', "/");
      assert name == "" + ['/'] + (if name == "/" then "" else "/") && "/" == "" + ['/'] + "";
      assert forall i | 0 <= i < |Split(name, '/')| :: Split(name, '/')[i] == "";
      NothingKept(Split(name, '/'));
    }
    ResolveKeepsValidNames(dir, ParsePath(name).parts);
  }

  function Wanted(archive: Path, members: seq<Member>): Option<Path> {
    SafeUserPath(Parent(archive), ParsePath(ContainerName(archive, members)))
  }

  lemma WantedPlace(t: Tree, archive: Path, members: seq<Member>)
    requires WellFormed(t) && IsFile(t, archive) && Parent(archive) != []
    ensures var w := Wanted(archive, members);
            w.Some? ==> ValidNames(w.value) && w.value != [] && IsDir(t, Parent(w.value))
                        && (w.value == Parent(archive) || Parent(w.value) == Parent(archive))
  {
    assert Attached(t, archive) && Name(archive) in archive;
    assert Attached(t, Parent(archive));
    FirstRootIsContainerText(members);
    ContainerPlace(Parent(archive), ContainerName(archive, members));
  }

  /** Whether the extraction returns or raises partway, every entry there was is unchanged, and every new one is at
      or below one container that was not there. */
  lemma ExtractionFrame(t: Tree, archive: Path, members: seq<Member>)
    requires WellFormed(t) && IsFile(t, archive) && Parent(archive) != []
    ensures var r, w := ExtractZip(t, archive, members), Wanted(archive, members);
            if w.None? then r == Extracted(t, false)
            else
              var container := FreshPath(t, w.value);
              && container !in t && Parent(container) == Parent(w.value) && ValidNames(container) && container != []
              && WellFormed(r.tree) && IsDir(r.tree, container) && Keeps(t, r.tree)
              && forall p | p in r.tree && p !in t :: container <= p
  {
    WantedPlace(t, archive, members);
    var w := Wanted(archive, members);
    if w.Some? {
      var container := FreshPath(t, w.value);
      FreshPathIsValid(t, w.value);
      FreshPathIsFirstFree(t, w.value, 1);
      ContainerIsMade(t, container);
      var t1 := MakeDirs(t, container).value;
      var steps := Steps(container, OneRoot(members), members);
      StepsStayBelow(container, OneRoot(members), members);
      LoopKeepsFrame(t1, container, steps);
      NothingBelow(t, container);
    }
  }

  lemma ContainerIsMade(t: Tree, container: Path)
    requires WellFormed(t) && container !in t && container != [] && ValidNames(container) && IsDir(t, Parent(container))
    ensures MakeDirs(t, container) == Some(t[container := Dir]) && WellFormed(t[container := Dir])
    ensures forall p | p in MakeDirs(t, container).value && container <= p :: p == container
  {
    forall q | q <= container ensures !IsFile(t, q) && (q != container ==> q in t) {
      if q != container {
        ParentIsPrefix(q, container);
        if q != Parent(container) { AncestorsAreDirs(t, Parent(container), q); }
      }
    }
    MakeDirsAddsAncestors(t, container);
    NothingBelow(t, container);
    assert MakeDirs(t, container).value == t[container := Dir];
  }

  /** The container of an escaping archive is made beside the data folder; that of any other one inside it. */
  lemma ContainerSide(t: Tree, base: Path, archive: Path, members: seq<Member>)
    requires Home(t, base) && base <= archive && IsFile(t, archive) && ZipName(Name(archive)) && Wanted(archive, members).Some?
    ensures Parent(archive) != [] && base <= Parent(archive)
    ensures var w := Wanted(archive, members).value;
            (base <= FreshPath(t, w) <==> w != base) && (w == base ==> Parent(archive) == base)
  {
    ParentIsPrefix(base, archive);
    assert base <= Parent(archive) && Parent(archive) != [];
    WantedPlace(t, archive, members);
    var w := Wanted(archive, members).value;
    var container := FreshPath(t, w);
    FreshPathIsFirstFree(t, w, 1);
    if w == base {
      assert Parent(archive) == base by { PrefixesCompare(base, Parent(archive), base); }
      assert base in t by { assert Attached(t, archive); }
      assert |container| == |base| && container != base;
    } else {
      ParentIsPrefix(base, w);
      assert base <= Parent(container) <= container;
    }
  }

  /** New entries at or below one new container are outside the data folder exactly when the container is. */
  lemma NewBelowContainer(t: Tree, t': Tree, container: Path, base: Path, uploads: Path)
    requires Home(t, base) && WellFormed(t') && Keeps(t, t') && container !in t && IsDir(t', container)
    requires forall p | p in t' && p !in t :: container <= p
    ensures Home(t', base) && (OutsideKept(t, t', base, uploads) <==> base <= container)
  {
  }

  lemma ExtractZipEffect(t: Tree, base: Path, uploads: Path, archive: Path, members: seq<Member>)
    requires Home(t, base) && base <= archive && IsFile(t, archive) && ZipName(Name(archive))
    ensures var r := ExtractZip(t, archive, members);
            && Home(r.tree, base) && Keeps(t, r.tree)
            && (OutsideKept(t, r.tree, base, uploads) <==> Wanted(archive, members) != Some(base))
  {
    ParentIsPrefix(base, archive);
    assert Parent(archive) != [];
    ExtractionFrame(t, archive, members);
    var w := Wanted(archive, members);
    if w.Some? {
      ContainerSide(t, base, archive, members);
      NewBelowContainer(t, ExtractZip(t, archive, members).tree, FreshPath(t, w.value), base, uploads);
    }
  }

  /** An extraction keeps everything outside the data folder exactly when its container name does not come to the data
      folder itself, or the file is none or has no archive's name: else the container is made beside the folder,
      whether or not a member raises later. No entry is changed. */
  lemma ExtractEffect(t: Tree, base: Path, uploads: Path, r: Request)
    requires Home(t, base) && Apart(base, uploads) && r.Extract?
    ensures var done := Apply(t, base, uploads, r);
            && Home(done.tree, base) && Keeps(t, done.tree)
            && (OutsideKept(t, done.tree, base, uploads) <==> !LeavesFolder(t, base, uploads, r))
  {
    var a := SafeUserPath(base, ParsePath(r.path));
    if a.Some? && IsFile(t, a.value) && ZipName(Name(a.value)) && r.members.Some? {
      ExtractZipEffect(t, base, uploads, a.value, r.members.value);
      if Wanted(a.value, r.members.value) == Some(base) {
        ContainerSide(t, base, a.value, r.members.value);
      }
    }
  }

  /* ---- renaming and writing ---- */

  lemma RenameStaysInside(t: Tree, base: Path, user: PurePath, newName: string)
    requires Home(t, base) && forall n | n in user.parts :: WrittenPart(n)
    ensures var t' := RenameFile(t, base, user, newName).tree; Home(t', base) && SameOutside(t, t', base)
  {
    var r := RenameFile(t, base, user, newName);
    if r.outcome == Returned {
      var src, renamed := SafeUserPath(base, user).value, WithName(user, newName).value;
      var dst := SafeUserPath(base, renamed).value;
      ResolveKeepsValidNames(base, renamed.parts);
      MoveTreeKeepsTree(t, src, dst);
      forall p | !(base <= p) ensures (p in t <==> p in r.tree) && (p in t ==> t[p] == r.tree[p]) {
        MoveEntry(t, src, dst, p);
      }
      HomeStays(t, r.tree, base);
    }
  }

  lemma MoveBackReturns(t: Tree, src: Path, dst: Path)
    requires WellFormed(t) && src in t && src != [] && ValidNames(dst) && dst !in t
    requires |src| == |dst| && Parent(src) == Parent(dst)
    ensures var there := MoveTree(t, src, dst);
            src !in there && dst in there && IsDir(there, Parent(src)) && MoveTree(there, dst, src) == t
  {
    assert Attached(t, src);
    assert src != dst && !(src <= dst) && !(dst <= src);
    assert |Parent(src)| < |src|;
    MoveBackRestores(t, src, dst);
    MoveEntry(t, src, dst, dst);
    MoveEntry(t, src, dst, src);
    MoveEntry(t, src, dst, Parent(src));
    assert Transfer(dst, dst, src) == src;
  }

  /** A plain user path and its renamed form resolve side by side, and each is the other renamed. */
  lemma RenamedPath(base: Path, user: PurePath, newName: string)
    requires ValidNames(base) && user.parts != [] && WrittenPart(newName) && newName != ".."
    requires forall n | n in user.parts :: WrittenPart(n) && n != ".."
    ensures var renamed, n := WithName(user, newName), |user.parts| - 1;
            && renamed.Some? && WithName(renamed.value, user.parts[n]) == Some(user)
            && SafeUserPath(base, user) == Some(base + user.parts)
            && SafeUserPath(base, renamed.value) == Some(base + renamed.value.parts)
            && ValidNames(base + renamed.value.parts) && |renamed.value.parts| == |user.parts|
            && Parent(base + user.parts) == Parent(base + renamed.value.parts)
  {
    var n := |user.parts| - 1;
    var renamed := WithName(user, newName).value;
    assert WrittenPart(user.parts[n]);
    assert renamed.parts == user.parts[..n] + [newName];
    assert renamed.parts[..n] + [user.parts[n]] == user.parts;
    ResolvePlain(base, user.parts);
    ResolvePlain(base, renamed.parts);
    ResolveKeepsValidNames(base, renamed.parts);
    assert Parent(base + user.parts) == base + user.parts[..n];
    assert Parent(base + renamed.parts) == base + user.parts[..n];
  }

  /** Renaming an entry and renaming it back leaves the tree as it was. */
  lemma RenameBackRestores(t: Tree, base: Path, user: PurePath, newName: string)
    requires Home(t, base) && user.parts != [] && newName != ".."
    requires forall n | n in user.parts :: WrittenPart(n) && n != ".."
    requires RenameFile(t, base, user, newName).outcome == Returned
    ensures var renamed := WithName(user, newName).value;
            RenameFile(RenameFile(t, base, user, newName).tree, base, renamed, user.parts[|user.parts| - 1])
            == Result(t, Returned)
  {
    RenamedPath(base, user, newName);
    MoveBackReturns(t, base + user.parts, base + WithName(user, newName).value.parts);
  }

  lemma SetContentStaysInside(t: Tree, base: Path, user: PurePath, content: string)
    requires Home(t, base)
    ensures var t' := SetFileContent(t, base, user, content).tree; Home(t', base) && SameOutside(t, t', base)
  {
    var r := SetFileContent(t, base, user, content);
    if r.outcome == Returned {
      var p := SafeUserPath(base, user).value;
      assert Attached(t, p) && p != [];
      assert WriteFile(t, p, content) == Some(r.tree);
      WriteFileKeepsTree(t, p, content);
      HomeStays(t, r.tree, base);
    }
  }

  /* ---- any request, any run ---- */

  lemma OtherRequestsStayInside(t: Tree, base: Path, uploads: Path, r: Request)
    requires Home(t, base) && !r.Upload? && !r.Extract?
    ensures var t' := Apply(t, base, uploads, r).tree;
            Home(t', base) && SameOutside(t, t', base) && (r.Copy? ==> Keeps(t, t'))
  {
    match r
    case Delete(paths) =>
      var users := ParsePaths(paths);
      if SafePaths(base, users).Some? {
        SafePathsAreBelow(base, users);
        DeleteStaysInside(t, base, SafePaths(base, users).value);
      }
    case Copy(paths, destination) =>
      var users := ParsePaths(paths);
      SafePathIsValid(base, destination);
      if SafePaths(base, users).Some? && SafeUserPath(base, ParsePath(destination)).Some? {
        SafePathsAreBelow(base, users);
        CopyStaysInside(t, base, SafePaths(base, users).value, SafeUserPath(base, ParsePath(destination)).value);
      }
    case Rename(path, newName) => RenameStaysInside(t, base, ParsePath(path), newName);
    case SetContent(path, content) => SetContentStaysInside(t, base, ParsePath(path), content);
  }

  /** One request keeps the tree proper; it keeps everything outside the data folder but upload temporaries exactly
      when it is none of those that leave the folder; copies, uploads and extractions leave every entry of the folder
      as it was. */
  lemma RequestIsSafe(t: Tree, base: Path, uploads: Path, r: Request)
    requires Home(t, base) && Apart(base, uploads)
    ensures var done := Apply(t, base, uploads, r);
            && Home(done.tree, base)
            && (OutsideKept(t, done.tree, base, uploads) <==> !LeavesFolder(t, base, uploads, r))
            && (r.Copy? || r.Upload? || r.Extract? ==> KeepsBelow(t, done.tree, base))
  {
    if r.Upload? {
      UploadEffect(t, base, uploads, r);
    } else if r.Extract? {
      ExtractEffect(t, base, uploads, r);
    } else {
      OtherRequestsStayInside(t, base, uploads, r);
    }
  }

  /* ---- what lies beside the folder stays there ---- */

  predicate Beside(base: Path, p: Path) {
    Parent(p) == Parent(base) && p != base && p != []
  }

  lemma BesideIsOutside(base: Path, uploads: Path, p: Path)
    requires base != [] && Apart(base, uploads) && Beside(base, p)
    ensures !(base <= p) && !(uploads <= p && p != uploads)
  {
    assert Parent(base) <= base;
    if base <= p {
      ParentIsPrefix(base, p);
    }
    if uploads <= p && p != uploads {
      ParentIsPrefix(uploads, p);
    }
  }

  lemma BesideStays(t: Tree, base: Path, uploads: Path, r: Request, p: Path)
    requires Home(t, base) && Apart(base, uploads) && Beside(base, p) && p in t
    ensures p in Apply(t, base, uploads, r).tree
  {
    BesideIsOutside(base, uploads, p);
    if r.Upload? {
      UploadEffect(t, base, uploads, r);
    } else if r.Extract? {
      ExtractEffect(t, base, uploads, r);
    } else {
      OtherRequestsStayInside(t, base, uploads, r);
    }
  }

  lemma FinishBesideAdds(t: Tree, base: Path, uploads: Path, fileId: string) returns (p: Path)
    requires Home(t, base) && Apart(base, uploads) && IsDir(t, base) && UploadReady(t, base, uploads, fileId)
    ensures Beside(base, p) && p !in t && p in FinishUpload(t, uploads, fileId, FreshPath(t, base)).tree
  {
    UploadTarget(t, base, base);
    p := FreshPath(t, base);
    FinishUploadEffect(t, uploads, fileId, p);
    FinishBesideExactlyWhen(t, base, uploads, fileId);
  }

  lemma UploadAddsBeside(t: Tree, base: Path, uploads: Path, r: Request) returns (p: Path)
    requires Home(t, base) && Apart(base, uploads) && r.Upload? && LeavesFolder(t, base, uploads, r)
    ensures Beside(base, p) && p !in t && p in Apply(t, base, uploads, r).tree
  {
    MakingFolder(t, base);
    MakeDirsBelow(t, base, base);
    var t1 := t[base := Dir];
    assert UploadReady(t1, base, uploads, r.fileId) by {
      assert uploads <= uploads + [r.fileId] && uploads <= uploads + [Stem(r.fileId) + ".info"];
    }
    p := FinishBesideAdds(t1, base, uploads, r.fileId);
  }

  lemma ExtractAddsBeside(t: Tree, base: Path, uploads: Path, r: Request) returns (p: Path)
    requires Home(t, base) && Apart(base, uploads) && r.Extract? && LeavesFolder(t, base, uploads, r)
    ensures Beside(base, p) && p !in t && p in Apply(t, base, uploads, r).tree
  {
    var archive, members := SafeUserPath(base, ParsePath(r.path)).value, r.members.value;
    ContainerSide(t, base, archive, members);
    ExtractionFrame(t, archive, members);
    p := FreshPath(t, base);
  }

  /** A request that leaves the folder adds an entry beside it. */
  lemma LeavingAddsBeside(t: Tree, base: Path, uploads: Path, r: Request) returns (p: Path)
    requires Home(t, base) && Apart(base, uploads) && LeavesFolder(t, base, uploads, r)
    ensures Beside(base, p) && p !in t && p in Apply(t, base, uploads, r).tree
  {
    if r.Upload? {
      p := UploadAddsBeside(t, base, uploads, r);
    } else {
      p := ExtractAddsBeside(t, base, uploads, r);
    }
  }

  lemma {:induction false} BesideStaysInRun(t: Tree, base: Path, uploads: Path, requests: seq<Request>, p: Path)
    requires Home(t, base) && Apart(base, uploads) && Beside(base, p) && p in t
    ensures p in Run(t, base, uploads, requests)
  {
    if requests != [] {
      var n := |requests| - 1;
      BesideStaysInRun(t, base, uploads, requests[..n], p);
      RunIsProper(t, base, uploads, requests[..n]);
      BesideStays(Run(t, base, uploads, requests[..n]), base, uploads, requests[n], p);
    }
  }

  lemma {:induction false} RunIsProper(t: Tree, base: Path, uploads: Path, requests: seq<Request>)
    requires Home(t, base) && Apart(base, uploads)
    ensures Home(Run(t, base, uploads, requests), base)
  {
    if requests != [] {
      var n := |requests| - 1;
      RunIsProper(t, base, uploads, requests[..n]);
      RequestIsSafe(Run(t, base, uploads, requests[..n]), base, uploads, requests[n]);
    }
  }

  /** An entry beside the folder was added. */
  ghost predicate AddedBeside(t: Tree, t': Tree, base: Path) {
    exists p :: Beside(base, p) && p in t' && p !in t
  }

  /* ---- any run ---- */

  /** No request of the run leaves the folder in the state it meets. */
  predicate NoneLeaves(t: Tree, base: Path, uploads: Path, requests: seq<Request>) {
    requests != [] ==>
      var n := |requests| - 1;
      && NoneLeaves(t, base, uploads, requests[..n])
      && !LeavesFolder(Run(t, base, uploads, requests[..n]), base, uploads, requests[n])
  }

  lemma {:induction false} NoneLeavesKeepsOutside(t: Tree, base: Path, uploads: Path, requests: seq<Request>)
    requires Home(t, base) && Apart(base, uploads) && NoneLeaves(t, base, uploads, requests)
    ensures OutsideKept(t, Run(t, base, uploads, requests), base, uploads)
  {
    if requests != [] {
      var n := |requests| - 1;
      NoneLeavesKeepsOutside(t, base, uploads, requests[..n]);
      RunIsProper(t, base, uploads, requests[..n]);
      RequestIsSafe(Run(t, base, uploads, requests[..n]), base, uploads, requests[n]);
    }
  }

  lemma {:induction false} LeavingIsNotUndone(t: Tree, base: Path, uploads: Path, requests: seq<Request>)
    requires Home(t, base) && Apart(base, uploads) && !NoneLeaves(t, base, uploads, requests)
    ensures AddedBeside(t, Run(t, base, uploads, requests), base)
  {
    var n := |requests| - 1;
    var mid := Run(t, base, uploads, requests[..n]);
    RunIsProper(t, base, uploads, requests[..n]);
    if NoneLeaves(t, base, uploads, requests[..n]) {
      var p := LeavingAddsBeside(mid, base, uploads, requests[n]);
      if p in t {
        BesideStaysInRun(t, base, uploads, requests[..n], p);
      }
    } else {
      LeavingIsNotUndone(t, base, uploads, requests[..n]);
      var p :| Beside(base, p) && p in mid && p !in t;
      BesideStays(mid, base, uploads, requests[n], p);
    }
  }

  /** Any run of requests keeps the tree proper, and it changes nothing outside the data folder but upload temporaries
      exactly when none of its requests leaves the folder: what one has added beside it no later one removes. */
  lemma RunIsSafe(t: Tree, base: Path, uploads: Path, requests: seq<Request>)
    requires Home(t, base) && Apart(base, uploads)
    ensures Home(Run(t, base, uploads, requests), base)
    ensures OutsideKept(t, Run(t, base, uploads, requests), base, uploads) <==> NoneLeaves(t, base, uploads, requests)
  {
    RunIsProper(t, base, uploads, requests);
    if NoneLeaves(t, base, uploads, requests) {
      NoneLeavesKeepsOutside(t, base, uploads, requests);
    } else {
      LeavingIsNotUndone(t, base, uploads, requests);
      var p :| Beside(base, p) && p in Run(t, base, uploads, requests) && p !in t;
      BesideIsOutside(base, uploads, p);
    }
  }
}
