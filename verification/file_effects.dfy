/** What each file operation achieves: which entries are there afterwards, and with which contents. */
module FileEffects {
  import opened Text
  import opened Paths
  import opened FileTree
  import opened Extraction
  import opened FilesService
  import opened FileSafety

  predicate UnderSome(paths: seq<Path>, p: Path) {
    exists i | 0 <= i < |paths| :: paths[i] <= p
  }

  /** A deletion removes exactly the entries at or below the given paths. */
  lemma {:induction false} DeleteIsExact(t: Tree, base: Path, paths: seq<Path>, p: Path)
    requires Home(t, base) && AllBelow(base, paths)
    ensures p in DeletePaths(t, paths) <==> p in t && !UnderSome(paths, p)
    ensures p in DeletePaths(t, paths) ==> DeletePaths(t, paths)[p] == t[p]
  {
    if paths != [] {
      var n := |paths| - 1;
      var front, last := paths[..n], paths[n];
      DeleteIsExact(t, base, front, p);
      DeleteStaysInside(t, base, front);
      NothingIfMissing(DeletePaths(t, front), last);
      assert forall i | 0 <= i < n :: front[i] == paths[i];
      assert UnderSome(paths, p) <==> UnderSome(front, p) || last <= p;
    }
  }

  lemma NothingIfMissing(t: Tree, p: Path)
    requires WellFormed(t)
    ensures p !in t ==> forall q | q in t :: !(p <= q)
  {
    if p !in t {
      NothingBelow(t, p);
    }
  }

  /** The same entries with the same contents stand below `dst` in `t'` as below `src` in `t`. */
  ghost predicate SameBelow(t: Tree, src: Path, t': Tree, dst: Path) {
    forall rel :: (dst + rel in t' <==> src + rel in t) && (src + rel in t ==> t'[dst + rel] == t[src + rel])
  }

  lemma ImageIsSame(t: Tree, src: Path, dst: Path, rel: Path)
    ensures dst + rel in Image(t, src, dst) <==> src + rel in t
    ensures src + rel in t ==> Image(t, src, dst)[dst + rel] == t[src + rel]
  {
    ImageMember(t, src, dst, dst + rel);
    assert (dst + rel)[|dst|..] == rel;
  }

  /** A copy that returns puts the whole source, with its contents, at a fresh path in the destination, and otherwise
      only makes the destination's directories. */
  lemma CopyIsExact(t: Tree, base: Path, src: Path, dest: Path)
    requires Home(t, base) && base <= src && base <= dest && ValidNames(dest)
    requires src in t && CopyOne(t, src, dest).outcome == Returned
    ensures var t', dst := CopyOne(t, src, dest).tree, FreshPath(t, dest + [Name(src)]);
            && SameBelow(t, src, t', dst)
            && forall p | !(dst <= p) :: (p in t' <==> p in t || p <= dest) && (p in t ==> t'[p] == t[p])
  {
    assert Attached(t, src) && Name(src) in src;
    FreshBelow(t, dest, Name(src));
    var t', dst := CopyOne(t, src, dest).tree, FreshPath(t, dest + [Name(src)]);
    NothingBelow(t, dst);
    if IsDir(t, src) {
      var t1 := MakeDirs(t, dest).value;
      MakeDirsContents(t, dest);
      CopiedTree(t, t1, src, dest, dst);
    } else {
      CopiedFile(t, src, dst);
      DirIsThere(t, dest);
    }
  }

  lemma DirIsThere(t: Tree, dest: Path)
    requires WellFormed(t) && IsDir(t, dest)
    ensures forall p | p <= dest :: p in t
  {
    forall p | p <= dest ensures p in t {
      if p != dest { AncestorsAreDirs(t, dest, p); }
    }
  }

  lemma CopiedFile(t: Tree, src: Path, dst: Path)
    requires WellFormed(t) && IsFile(t, src) && dst !in t && WriteFile(t, dst, t[src].content).Some?
    ensures SameBelow(t, src, WriteFile(t, dst, t[src].content).value, dst)
  {
    var t' := WriteFile(t, dst, t[src].content).value;
    NothingBelow(t, dst);
    NothingBelow(t, src);
    forall rel ensures (dst + rel in t' <==> src + rel in t) && (src + rel in t ==> t'[dst + rel] == t[src + rel]) {
      assert rel == [] ==> dst + rel == dst && src + rel == src;
      assert rel != [] ==> |dst + rel| > |dst| && |src + rel| > |src|;
    }
  }

  lemma CopiedTree(t: Tree, t1: Tree, src: Path, dest: Path, dst: Path)
    requires WellFormed(t) && dest <= dst && dst != dest
    requires Keeps(t, t1) && (forall q :: q in t1 <==> q in t || q <= dest) && (forall p | p in t :: !(dst <= p))
    ensures SameBelow(t, src, CopyTree(t1, t, src, dst), dst)
    ensures forall p | !(dst <= p) :: (p in CopyTree(t1, t, src, dst) <==> p in t || p <= dest)
                                      && (p in t ==> CopyTree(t1, t, src, dst)[p] == t[p])
  {
    var t' := CopyTree(t1, t, src, dst);
    forall rel ensures (dst + rel in t' <==> src + rel in t) && (src + rel in t ==> t'[dst + rel] == t[src + rel]) {
      ImageIsSame(t, src, dst, rel);
      assert dst <= dst + rel;
    }
    forall p: Path {:trigger p in t} | !(dst <= p) ensures (p in t' <==> p in t || p <= dest) && (p in t ==> t'[p] == t[p]) {
      ImageMember(t, src, dst, p);
    }
  }

  /** An upload's last part that returns moves the temporary entry to the target and consumes the information file. */
  lemma UploadIsExact(t: Tree, uploads: Path, fileId: string, target: Path)
    requires WellFormed(t) && ValidNames(target) && target !in t && target != []
    requires FinishUpload(t, uploads, fileId, target).outcome == Returned
    ensures var t', tmp, info := FinishUpload(t, uploads, fileId, target).tree, uploads + [fileId], uploads + [Stem(fileId) + ".info"];
            && SameBelow(t, tmp, t', target) && IsFile(t, info)
            && forall p | !(target <= p) :: (p in t' <==> p in t && !(tmp <= p) && p != info) && (p in t' ==> t'[p] == t[p])
  {
    var t' := FinishUpload(t, uploads, fileId, target).tree;
    var tmp, info := uploads + [fileId], uploads + [Stem(fileId) + ".info"];
    var t1 := RemoveTree(t, info);
    assert tmp in t1;
    NothingBelow(t, info);
    RemoveTreeKeepsTree(t, info);
    assert tmp[|uploads|] != info[|uploads|];
    forall rel ensures (target + rel in t' <==> tmp + rel in t) && (tmp + rel in t ==> t'[target + rel] == t[tmp + rel]) {
      MoveEntry(t1, tmp, target, target + rel);
      assert (target + rel)[|target|..] == rel;
      assert (tmp + rel)[|uploads|] == fileId;
    }
    forall p: Path {:trigger p in t} | !(target <= p) ensures (p in t' <==> p in t && !(tmp <= p) && p != info) && (p in t' ==> t'[p] == t[p]) {
      MoveEntry(t1, tmp, target, p);
    }
  }

  /** A rename that returns moves the whole entry, with its contents, and nothing else. */
  lemma RenameIsExact(t: Tree, base: Path, user: PurePath, newName: string)
    requires WellFormed(t) && RenameFile(t, base, user, newName).outcome == Returned
    ensures var t', src := RenameFile(t, base, user, newName).tree, SafeUserPath(base, user).value;
            var dst := SafeUserPath(base, WithName(user, newName).value).value;
            && dst !in t && src !in t' && SameBelow(t, src, t', dst)
            && forall p | !(dst <= p) && !(src <= p) :: (p in t' <==> p in t) && (p in t ==> t'[p] == t[p])
  {
    var t', src := RenameFile(t, base, user, newName).tree, SafeUserPath(base, user).value;
    var dst := SafeUserPath(base, WithName(user, newName).value).value;
    forall rel ensures (dst + rel in t' <==> src + rel in t) && (src + rel in t ==> t'[dst + rel] == t[src + rel]) {
      MoveEntry(t, src, dst, dst + rel);
      assert (dst + rel)[|dst|..] == rel;
    }
    if dst <= src {
      NothingBelow(t, dst);
    }
    MoveEntry(t, src, dst, src);
    forall p: Path {:trigger p in t} | !(dst <= p) && !(src <= p) ensures (p in t' <==> p in t) && (p in t ==> t'[p] == t[p]) {
      MoveEntry(t, src, dst, p);
    }
  }
}
