/** The file system as a map from resolved paths to nodes, and the system calls the file service makes on it. */
module FileTree {
  import opened Text
  import opened Paths

  datatype Node = Dir | File(content: string)

  type Tree = map<Path, Node>

  predicate IsDir(t: Tree, p: Path) {
    p in t && t[p].Dir?
  }

  predicate IsFile(t: Tree, p: Path) {
    p in t && t[p].File?
  }

  /** Every entry lies in a directory, and its components are usable names. */
  ghost predicate WellFormed(t: Tree) {
    IsDir(t, []) && forall p {:trigger Attached(t, p)} | p in t :: Attached(t, p)
  }

  predicate Attached(t: Tree, p: Path) {
    ValidNames(p) && IsDir(t, Parent(p))
  }

  /** Everything in `t` is unchanged in `t'`. */
  ghost predicate Keeps(t: Tree, t': Tree) {
    forall p | p in t :: p in t' && t'[p] == t[p]
  }

  /** The trees agree on every path that is not at or below `base`. */
  ghost predicate SameOutside(t: Tree, t': Tree, base: Path) {
    forall p | !(base <= p) :: (p in t <==> p in t') && (p in t ==> t[p] == t'[p])
  }

  lemma {:induction false} AncestorsAreDirs(t: Tree, p: Path, q: Path)
    requires WellFormed(t) && p in t && q <= p && q != p
    ensures IsDir(t, q)
    decreases |p|
  {
    assert Attached(t, p);
    if |q| < |p| - 1 {
      AncestorsAreDirs(t, Parent(p), q);
    } else {
      assert q == Parent(p);
    }
  }

  /** Nothing lies below a missing path or a file. */
  lemma NothingBelow(t: Tree, p: Path)
    requires WellFormed(t) && !IsDir(t, p)
    ensures forall q | q in t && p <= q :: q == p
  {
    forall q | q in t && p <= q ensures q == p {
      if q != p {
        AncestorsAreDirs(t, q, p);
      }
    }
  }

  function Prefixes(p: Path): (s: set<Path>)
    ensures forall q :: q in s <==> q <= p
  {
    var s := set k | 0 <= k <= |p| :: p[..k];
    assert forall q | q <= p :: q == p[..|q|];
    s
  }

  /** `mkdir(parents=True, exist_ok=True)`: fails without effect when the path runs into a file. */
  function MakeDirs(t: Tree, p: Path): Option<Tree> {
    if exists q | q in Prefixes(p) :: IsFile(t, q) then None
    else Some(t + map q | q in Prefixes(p) && q !in t :: Dir)
  }

  lemma MakeDirsContents(t: Tree, p: Path)
    requires MakeDirs(t, p).Some?
    ensures var t' := MakeDirs(t, p).value;
            Keeps(t, t') && (forall q :: q in t' <==> q in t || q <= p) && (forall q | q <= p :: IsDir(t', q))
  {
    var t' := MakeDirs(t, p).value;
    forall q | q <= p ensures IsDir(t', q) {
      assert q in Prefixes(p) && !IsFile(t, q);
    }
  }

  lemma ParentIsPrefix(q: Path, p: Path)
    requires q <= p
    ensures Parent(q) <= p && (q != p ==> q <= Parent(p))
    ensures ValidNames(p) ==> ValidNames(q)
  {
    assert Parent(q) <= q;
  }

  lemma MakeDirsAddsAncestors(t: Tree, p: Path)
    requires WellFormed(t) && ValidNames(p) && MakeDirs(t, p).Some?
    ensures var t' := MakeDirs(t, p).value;
            WellFormed(t') && Keeps(t, t') && (forall q :: q in t' <==> q in t || q <= p) && (forall q | q <= p :: IsDir(t', q))
  {
    MakeDirsContents(t, p);
    var t' := MakeDirs(t, p).value;
    forall q | q in t' ensures Attached(t', q) {
      if q !in t {
        ParentIsPrefix(q, p);
      } else {
        assert Attached(t, q);
      }
    }
  }

  /** Opening a file for writing and writing it. */
  function WriteFile(t: Tree, p: Path, content: string): Option<Tree> {
    if p == [] || !IsDir(t, Parent(p)) || IsDir(t, p) then None else Some(t[p := File(content)])
  }

  lemma WriteFileKeepsTree(t: Tree, p: Path, content: string)
    requires WellFormed(t) && ValidNames(p) && WriteFile(t, p, content).Some?
    ensures WellFormed(WriteFile(t, p, content).value)
  {
    var t' := t[p := File(content)];
    forall q | q in t' ensures Attached(t', q) {
      if q == p {
        assert |Parent(p)| < |p|;
      } else {
        assert Attached(t, q) && Parent(q) != p;
      }
    }
  }

  /** `rmtree` on a directory and `unlink` on a file. */
  function RemoveTree(t: Tree, p: Path): Tree {
    map q | q in t && !(p <= q) :: t[q]
  }

  lemma RemoveTreeKeepsTree(t: Tree, p: Path)
    requires WellFormed(t) && p != []
    ensures WellFormed(RemoveTree(t, p))
  {
    var t' := RemoveTree(t, p);
    forall q | q in t' ensures Attached(t', q) {
      assert Attached(t, q) && Parent(q) <= q;
    }
  }

  /** The entries at or below `src`, carried to `dst`. */
  function Image(t: Tree, src: Path, dst: Path): Tree {
    map q | q in (set p | p in t && src <= p :: dst + p[|src|..])  && Transfer(q, dst, src) in t ::
      t[Transfer(q, dst, src)]
  }

  /** The path at the same place below `dst` as `p` below `src`. */
  function Transfer(p: Path, src: Path, dst: Path): Path {
    if src <= p then dst + p[|src|..] else p
  }

  lemma TransferBack(p: Path, src: Path, dst: Path)
    requires src <= p
    ensures dst <= Transfer(p, src, dst) && Transfer(Transfer(p, src, dst), dst, src) == p
  {
    assert (dst + p[|src|..])[|dst|..] == p[|src|..];
  }

  lemma ImageMember(t: Tree, src: Path, dst: Path, q: Path)
    ensures q in Image(t, src, dst) <==> dst <= q && Transfer(q, dst, src) in t
    ensures q in Image(t, src, dst) ==> Image(t, src, dst)[q] == t[Transfer(q, dst, src)]
  {
    var keys := set p | p in t && src <= p :: dst + p[|src|..];
    if dst <= q {
      TransferBack(q, dst, src);
    }
    if q in keys {
      var p :| p in t && src <= p && q == dst + p[|src|..];
      TransferBack(p, src, dst);
    }
  }

  /** `copytree` to a fresh destination: the entries listed in `from`, before directories were made, appear in `t`. */
  function CopyTree(t: Tree, from: Tree, src: Path, dst: Path): Tree {
    t + Image(from, src, dst)
  }

  /** `rename` to a fresh destination that is not below the source. */
  function MoveTree(t: Tree, src: Path, dst: Path): Tree {
    RemoveTree(t, src) + Image(t, src, dst)
  }

  lemma ImageNames(t: Tree, src: Path, dst: Path, q: Path)
    requires WellFormed(t) && ValidNames(dst) && q in Image(t, src, dst)
    ensures ValidNames(q) && dst <= q
  {
    ImageMember(t, src, dst, q);
    var rest := q[|dst|..];
    assert q == dst + rest && Attached(t, src + rest);
    forall n | n in rest ensures ValidName(n) {
      assert n in src + rest;
    }
  }

  lemma ParentOfExtension(base: Path, rest: Path)
    requires rest != []
    ensures Parent(base + rest) == base + Parent(rest)
  {
  }

  lemma ImageParent(t: Tree, src: Path, dst: Path, q: Path)
    requires WellFormed(t) && q in Image(t, src, dst) && q != dst
    ensures Parent(q) in Image(t, src, dst) && Image(t, src, dst)[Parent(q)] == Dir
  {
    ImageMember(t, src, dst, q);
    var rest := q[|dst|..];
    assert q == dst + rest;
    ParentOfExtension(dst, rest);
    ParentOfExtension(src, rest);
    ImageMember(t, src, dst, Parent(q));
    assert Attached(t, src + rest);
    assert (dst + Parent(rest))[|dst|..] == Parent(rest);
  }

  lemma CopyEntry(t: Tree, from: Tree, src: Path, dst: Path, q: Path)
    requires WellFormed(t) && WellFormed(from) && dst !in t
    ensures q in CopyTree(t, from, src, dst) <==> q in t || q in Image(from, src, dst)
    ensures q in Image(from, src, dst) ==> dst <= q && CopyTree(t, from, src, dst)[q] == Image(from, src, dst)[q]
    ensures q in t ==> q !in Image(from, src, dst) && CopyTree(t, from, src, dst)[q] == t[q]
  {
    NothingBelow(t, dst);
    ImageMember(from, src, dst, q);
  }

  lemma CopyEntryAttached(t: Tree, from: Tree, src: Path, dst: Path, q: Path)
    requires WellFormed(t) && WellFormed(from) && ValidNames(dst) && dst !in t && IsDir(t, Parent(dst)) && q in CopyTree(t, from, src, dst)
    ensures Attached(CopyTree(t, from, src, dst), q)
  {
    CopyEntry(t, from, src, dst, q);
    CopyEntry(t, from, src, dst, Parent(q));
    if q in t {
      assert Attached(t, q);
    } else {
      ImageNames(from, src, dst, q);
      if q != dst {
        ImageParent(from, src, dst, q);
      }
    }
  }

  lemma CopyTreeKeepsTree(t: Tree, from: Tree, src: Path, dst: Path)
    requires WellFormed(t) && WellFormed(from) && ValidNames(dst) && dst !in t && IsDir(t, Parent(dst))
    ensures WellFormed(CopyTree(t, from, src, dst)) && Keeps(t, CopyTree(t, from, src, dst))
    ensures SameOutside(t, CopyTree(t, from, src, dst), dst)
  {
    forall q | q in CopyTree(t, from, src, dst) ensures Attached(CopyTree(t, from, src, dst), q) {
      CopyEntryAttached(t, from, src, dst, q);
    }
    CopyEntry(t, from, src, dst, []);
    forall q: Path {:trigger q in t} ensures
        (q in t ==> q in CopyTree(t, from, src, dst) && CopyTree(t, from, src, dst)[q] == t[q])
        && (!(dst <= q) ==> (q in CopyTree(t, from, src, dst) <==> q in t)) {
      CopyEntry(t, from, src, dst, q);
    }
  }

  /** The entries after a move: the moved ones at their new place, the others where they were. */
  lemma MoveEntry(t: Tree, src: Path, dst: Path, q: Path)
    requires WellFormed(t) && dst !in t && !(src <= dst)
    ensures var t' := MoveTree(t, src, dst);
            if dst <= q then
              var p := Transfer(q, dst, src);
              (q in t' <==> p in t) && (p in t ==> q in t' && t'[q] == t[p])
            else
              (q in t' <==> q in t && !(src <= q)) && (q in t' ==> t'[q] == t[q])
  {
    NothingBelow(t, dst);
    ImageMember(t, src, dst, q);
  }

  lemma MoveTreeKeepsTree(t: Tree, src: Path, dst: Path)
    requires WellFormed(t) && src in t && src != [] && ValidNames(dst) && dst !in t && IsDir(t, Parent(dst)) && !(src <= dst)
    ensures WellFormed(MoveTree(t, src, dst))
  {
    var t' := MoveTree(t, src, dst);
    forall q | q in t' ensures Attached(t', q) {
      MoveEntry(t, src, dst, q);
      MoveEntry(t, src, dst, Parent(q));
      if dst <= q {
        ImageMember(t, src, dst, q);
        ImageNames(t, src, dst, q);
        if q != dst {
          ImageParent(t, src, dst, q);
          ImageMember(t, src, dst, Parent(q));
        } else {
          assert Parent(dst) <= dst && |Parent(dst)| < |dst|;
        }
      } else {
        assert Parent(q) <= q && Attached(t, q);
      }
    }
  }

  lemma MoveBackEntries(t: Tree, src: Path, dst: Path)
    requires WellFormed(t) && WellFormed(MoveTree(t, src, dst)) && src in t && dst !in t && !(src <= dst)
    ensures MoveTree(MoveTree(t, src, dst), dst, src) == t
  {
    var there := MoveTree(t, src, dst);
    var back := MoveTree(there, dst, src);
    assert !(dst <= src) by {
      if dst <= src { AncestorsAreDirs(t, src, dst); }
    }
    MoveEntry(t, src, dst, src);
    forall q ensures (q in back <==> q in t) && (q in t ==> back[q] == t[q]) {
      MoveEntry(there, dst, src, q);
      if src <= q {
        TransferBack(q, src, dst);
        MoveEntry(t, src, dst, Transfer(q, src, dst));
      } else {
        NothingBelow(t, dst);
        MoveEntry(t, src, dst, q);
      }
    }
  }

  /** Renaming to a fresh place and back restores the tree. */
  lemma MoveBackRestores(t: Tree, src: Path, dst: Path)
    requires WellFormed(t) && src in t && src != [] && ValidNames(dst) && dst !in t && IsDir(t, Parent(dst)) && !(src <= dst)
    ensures MoveTree(MoveTree(t, src, dst), dst, src) == t
  {
    MoveTreeKeepsTree(t, src, dst);
    MoveBackEntries(t, src, dst);
  }

  /* ---- fresh paths ---- */

  ghost predicate Distinct(c: nat -> Path) {
    forall i, j :: 1 <= i < j ==> c(i) != c(j)
  }

  /** The entries that are none of the candidates before the i-th. */
  function Untried(t: Tree, c: nat -> Path, i: nat): set<Path> {
    t.Keys - set j: nat | 1 <= j < i :: c(j)
  }

  /** An occupied candidate uses up one of the entries not tried before. */
  lemma TryingUsesUpAnEntry(t: Tree, c: nat -> Path, i: nat)
    requires Distinct(c) && i >= 1 && c(i) in t
    ensures |Untried(t, c, i + 1)| < |Untried(t, c, i)|
  {
    var before, after := Untried(t, c, i), Untried(t, c, i + 1);
    assert c(i) in before && c(i) !in after;
    assert after <= before - {c(i)};
    SubsetSize(after, before - {c(i)});
  }

  lemma {:induction false} SubsetSize(a: set<Path>, b: set<Path>)
    requires a <= b
    ensures |a| <= |b|
  {
    if x :| x in a {
      SubsetSize(a - {x}, b - {x});
    }
  }

  /** The smallest counter from `i` on whose candidate is free. */
  function FirstFree(t: Tree, c: nat -> Path, i: nat): (r: nat)
    requires Distinct(c) && i >= 1
    ensures r >= i && c(r) !in t && forall j | i <= j < r :: c(j) in t
    decreases |Untried(t, c, i)|
  {
    if c(i) !in t then i
    else
      TryingUsesUpAnEntry(t, c, i);
      FirstFree(t, c, i + 1)
  }

  /** The paths tried for a fresh path, by counter. */
  function Candidates(path: Path, isDir: bool): (c: nat -> Path)
    ensures Distinct(c)
  {
    assert Distinct((i: nat) => Candidate(path, isDir, i)) by {
      forall i, j | 1 <= i < j ensures Candidate(path, isDir, i) != Candidate(path, isDir, j) {
        CandidatesDiffer(path, isDir, i, j);
      }
    }
    (i: nat) => Candidate(path, isDir, i)
  }

  function FreshPath(t: Tree, path: Path): Path {
    var c := Candidates(path, IsDir(t, path));
    c(FirstFree(t, c, 1))
  }

  /** The fresh path is unused, keeps the parent, is the path itself when that is free, and otherwise uses the
      smallest counter that is free. */
  lemma FreshPathIsFirstFree(t: Tree, path: Path, i: nat)
    requires i >= 1
    ensures FreshPath(t, path) !in t
    ensures FreshPath(t, path) == Candidate(path, IsDir(t, path), i) <==>
            Candidate(path, IsDir(t, path), i) !in t
            && forall j: nat | 1 <= j < i :: Candidate(path, IsDir(t, path), j) in t
    ensures path != [] ==> Parent(FreshPath(t, path)) == Parent(path)
    ensures path !in t ==> FreshPath(t, path) == path
    ensures path in t ==> Name(FreshPath(t, path)) != Name(path)
  {
    var c := Candidates(path, IsDir(t, path));
    var r := FirstFree(t, c, 1);
    assert c(i) == Candidate(path, IsDir(t, path), i) && c(1) == path;
    assert i < r ==> c(i) in t;
    assert r < i ==> c(r) !in t;
    assert i != r ==> c(i) != c(r);
    assert forall j: nat | 1 <= j < i :: c(j) == Candidate(path, IsDir(t, path), j);
    CandidatePlace(path, IsDir(t, path), r);
  }

  lemma CandidatePlace(path: Path, isDir: bool, r: nat)
    requires r >= 1
    ensures path != [] ==> Parent(Candidate(path, isDir, r)) == Parent(path)
    ensures r >= 2 ==> Name(Candidate(path, isDir, r)) != Name(path)
  {
    if r >= 2 {
      NumberedNamesDiffer(Name(path), isDir, 1, r);
      assert Parent(Candidate(path, isDir, r)) == Parent(path);
    }
  }

  lemma FreshPathIsValid(t: Tree, path: Path)
    requires ValidNames(path)
    ensures ValidNames(FreshPath(t, path))
  {
    var r := FirstFree(t, Candidates(path, IsDir(t, path)), 1);
    if r >= 2 {
      assert path == [] || ValidName(Name(path));
      NumberedNameValid(Name(path), IsDir(t, path), r);
    }
  }
}
