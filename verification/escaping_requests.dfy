/** Concrete requests that change something outside the data folder. */
module EscapingRequests {
  import opened Text
  import opened Paths
  import opened FileTree
  import opened Extraction
  import opened FilesService
  import opened FileSafety
  import opened PathLaws

  /* ---- a small tree ---- */

  lemma NoSuffix(name: string)
    requires '.' !in name
    ensures Stem(name) == name && !ZipName(name)
  {
    NoDot(name);
  }

  ghost predicate OnlyDirs(t: Tree) {
    forall q | q in t :: t[q] == Dir
  }

  lemma AddDirs(t: Tree, p: Path) returns (t': Tree)
    requires WellFormed(t) && OnlyDirs(t) && ValidNames(p)
    ensures WellFormed(t') && OnlyDirs(t') && p in t' && forall q :: q in t' <==> q in t || q <= p
  {
    assert MakeDirs(t, p).Some?;
    t' := MakeDirs(t, p).value;
    MakeDirsAddsAncestors(t, p);
    assert p <= p;
  }

  lemma AddFile(t: Tree, dir: Path, name: string, content: string) returns (t': Tree)
    requires WellFormed(t) && IsDir(t, dir) && ValidNames(dir) && ValidName(name) && dir + [name] !in t
    ensures WellFormed(t') && t' == t[dir + [name] := File(content)]
  {
    assert Parent(dir + [name]) == dir;
    WriteFileKeepsTree(t, dir + [name], content);
    t' := WriteFile(t, dir + [name], content).value;
  }

  lemma Folders(base: Path, uploads: Path) returns (t: Tree)
    requires ValidNames(base) && ValidNames(uploads) && Apart(base, uploads)
    ensures WellFormed(t) && IsDir(t, base) && IsDir(t, uploads)
    ensures forall name :: base + [name] !in t && uploads + [name] !in t
  {
    t := map[[] := Dir];
    t := AddDirs(t, base);
    t := AddDirs(t, uploads);
    forall name ensures base + [name] !in t && uploads + [name] !in t {
      assert base <= base + [name] && uploads <= uploads + [name];
    }
  }

  /** A data folder that holds one archive, and one upload waiting. */
  lemma ExampleAt(base: Path, uploads: Path, zip: string, id: string, info: string) returns (t: Tree)
    requires ValidNames(base) && ValidNames(uploads) && Apart(base, uploads) && base != [] && !ZipName(Name(base))
    requires ValidName(zip) && ValidName(id) && ValidName(info) && id != info
    ensures Home(t, base) && IsDir(t, base) && IsFile(t, base + [zip])
    ensures IsFile(t, uploads + [id]) && IsFile(t, uploads + [info])
  {
    t := Folders(base, uploads);
    AncestorsAreDirs(t, base, Parent(base));
    assert base <= base + [zip] && uploads <= uploads + [id];
    assert (uploads + [id])[|uploads|] == id && (uploads + [info])[|uploads|] == info;
    t := AddFile(t, base, zip, "zip");
    t := AddFile(t, uploads, id, "x");
    t := AddFile(t, uploads, info, "");
  }

  lemma Example(zip: string, id: string, info: string) returns (t: Tree, base: Path, uploads: Path)
    requires ValidName(zip) && ValidName(id) && ValidName(info) && id != info
    ensures base == ["miniverses", "m", "data"] && uploads == ["uploads"]
    ensures Home(t, base) && Apart(base, uploads) && IsDir(t, base)
    ensures IsFile(t, base + [zip]) && IsFile(t, uploads + [id]) && IsFile(t, uploads + [info])
  {
    base, uploads := ["miniverses", "m", "data"], ["uploads"];
    assert |base[0]| == 10 && |uploads[0]| == 7;
    NoSuffix("data");
    t := ExampleAt(base, uploads, zip, id, info);
  }

  /* ---- texts that name nothing ---- */

  lemma NothingWritten(base: Path, text: string)
    requires text == "/" || text == "."
    ensures SafeUserPath(base, ParsePath(text)) == Some(base)
  {
    if text == "." {
      SplitFree(text, '/');
      NothingKept([text]);
    } else {
      SplitPrefix("", '/', "");
      SplitFree("", '/');
      assert text == "" + ['/'] + "";
      NothingKept(Split(text, '/'));
    }
    assert ParsePath(text).parts == [];
  }

  /** Any upload named "." to "/" whose files are there lands beside the data folder. */
  lemma DotUploadLeaves(t: Tree, base: Path, uploads: Path, id: string, filename: string, destination: string)
    requires Home(t, base) && Apart(base, uploads) && UploadReady(t, base, uploads, id)
    requires filename == "." && destination == "/"
    ensures LeavesFolder(t, base, uploads, Upload(id, filename, destination))
  {
    NothingWritten(base, filename);
    NothingWritten(base, destination);
  }

  lemma PlainId() returns (id: string, info: string)
    ensures id == "f" && info == Stem(id) + ".info" && info != id && ValidName(id) && ValidName(info)
  {
    id := "f";
    NoSuffix(id);
    info := id + ".info";
    assert info == "f.info";
  }

  /** An upload named "." to "/" that changes something outside the data folder. */
  lemma DotUploadLeavesFolder() returns (t: Tree, base: Path, uploads: Path, r: Request)
    ensures Home(t, base) && Apart(base, uploads) && r == Upload("f", ".", "/")
    ensures !OutsideKept(t, Apply(t, base, uploads, r).tree, base, uploads)
  {
    var id, info := PlainId();
    t, base, uploads := Example("a.zip", id, info);
    r := Upload(id, ".", "/");
    DotUploadLeaves(t, base, uploads, id, r.filename, r.destination);
    UploadEffect(t, base, uploads, r);
  }

  /** The only root of an archive whose only member is "/x". */
  lemma SlashRoot(m: Member)
    requires m.filename == "/x"
    ensures OneRoot([m]) && FirstRoot([m]) == "/"
  {
    assert m.filename == "" + ['/'] + "x";
    SplitPrefix("", '/', "x");
    SplitFree("x", '/');
    SplitFree("", '/');
    KeptOfConcat([""], ["x"]);
    assert AllParts(ParsePath(m.filename)) == ["/", "x"];
    assert ZipRoots([m]) == {"/"};
  }

  lemma SlashArchiveLeaves(t: Tree, base: Path, uploads: Path, zip: string, m: Member)
    requires Home(t, base) && ValidName(zip) && ZipName(zip) && IsFile(t, base + [zip]) && m.filename == "/x"
    ensures LeavesFolder(t, base, uploads, Extract(zip, Some([m])))
  {
    SplitFree(zip, '/');
    KeptOfKept([zip]);
    ResolvePlain(base, [zip]);
    assert SafeUserPath(base, ParsePath(zip)) == Some(base + [zip]);
    assert Parent(base + [zip]) == base;
    SlashRoot(m);
    NothingWritten(base, FirstRoot([m]));
  }


  lemma ZipNamed() returns (zip: string)
    ensures zip == "a.zip" && ZipName(zip) && ValidName(zip)
  {
    zip := "a" + "." + "zip";
    LastDotBefore("a", "zip");
    assert Suffix(zip) == ".zip";
  }

  /** The extraction of an archive whose only member is "/x" that changes something outside the data folder. */
  lemma SlashArchiveLeavesFolder() returns (t: Tree, base: Path, uploads: Path, r: Request)
    ensures Home(t, base) && Apart(base, uploads) && r == Extract("a.zip", Some([Member("/x", "y")]))
    ensures !OutsideKept(t, Apply(t, base, uploads, r).tree, base, uploads)
  {
    var zip := ZipNamed();
    t, base, uploads := Example(zip, "f", "g");
    var m := Member("/x", "y");
    r := Extract(zip, Some([m]));
    SlashArchiveLeaves(t, base, uploads, zip, m);
    ExtractEffect(t, base, uploads, r);
  }
}
