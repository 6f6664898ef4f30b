/** Path texts, the resolution of a user path below a base, and the names tried for a fresh path. */
module Paths {
  import opened Text

  /** An absolute, resolved path: its components from the root. */
  type Path = seq<string>

  /** A path as written: its root ("", "/" or "//") and the components that are neither empty nor a single dot. */
  datatype PurePath = PurePath(root: string, parts: seq<string>)

  predicate ValidName(n: string) {
    n != "" && n != "." && n != ".." && '/' !in n
  }

  predicate ValidNames(p: Path) {
    forall n | n in p :: ValidName(n)
  }

  /** A component of a path as written. */
  predicate WrittenPart(n: string) {
    n != "" && n != "." && '/' !in n
  }

  function KeptParts(pieces: seq<string>): (kept: seq<string>)
    ensures forall n | n in kept :: n in pieces && n != "" && n != "."
  {
    if pieces == [] then []
    else if pieces[0] == "" || pieces[0] == "." then KeptParts(pieces[1..])
    else [pieces[0]] + KeptParts(pieces[1..])
  }

  function RootText(s: string): (root: string)
    ensures root in {"", "/", "//"}
  {
    if s == "" || s[0] != '/' then ""
    else if |s| >= 2 && s[1] == '/' && (|s| == 2 || s[2] != '/') then "//"
    else "/"
  }

  function ParsePath(s: string): (p: PurePath)
    ensures forall n | n in p.parts :: WrittenPart(n)
  {
    SplitPiecesFree(s, '/');
    PurePath(RootText(s), KeptParts(Split(s, '/')))
  }

  function PathText(p: PurePath): string {
    if p.root == "" && p.parts == [] then "." else p.root + Join(p.parts, '/')
  }

  /** The `parts` property, where a root counts as a component. */
  function AllParts(p: PurePath): seq<string> {
    if p.root == "" then p.parts else [p.root] + p.parts
  }

  /** `Path(*path.parts[1:])`. */
  function DropFirst(p: PurePath): PurePath
    requires AllParts(p) != []
  {
    PurePath("", AllParts(p)[1..])
  }

  function Parent(p: Path): Path {
    if p == [] then [] else p[..|p| - 1]
  }

  function Name(p: Path): string {
    if p == [] then "" else p[|p| - 1]
  }

  /** Walks the written components from a base; without links this is what `resolve` does. */
  function Resolve(base: Path, parts: seq<string>): Path
    decreases parts
  {
    if parts == [] then base
    else if parts[0] == ".." then Resolve(Parent(base), parts[1..])
    else Resolve(base + [parts[0]], parts[1..])
  }

  /** The target of a user path, or None where the source raises. The text "./" put in front makes the path
      relative (lemma DotSlashMakesRelative), so only its components take part. */
  function SafeUserPath(base: Path, user: PurePath): (target: Option<Path>)
    ensures target.Some? ==> base <= target.value
  {
    var target := Resolve(base, user.parts);
    if base <= target then Some(target) else None
  }

  lemma {:induction false} KeptOfConcat(a: seq<string>, b: seq<string>)
    ensures KeptParts(a + b) == KeptParts(a) + KeptParts(b)
  {
    if a == [] {
      assert a + b == b;
    } else {
      KeptOfConcat(a[1..], b);
      assert (a + b)[1..] == a[1..] + b;
    }
  }

  lemma {:induction false} NothingKept(pieces: seq<string>)
    requires forall i | 0 <= i < |pieces| :: pieces[i] == "" || pieces[i] == "."
    ensures KeptParts(pieces) == []
  {
    if pieces != [] {
      NothingKept(pieces[1..]);
    }
  }

  lemma {:induction false} KeptOfKept(parts: seq<string>)
    requires forall n | n in parts :: WrittenPart(n)
    ensures KeptParts(parts) == parts
  {
    if parts != [] {
      assert WrittenPart(parts[0]);
      KeptOfKept(parts[1..]);
    }
  }

  /** Writing "./" before the text of any path and reading it back drops the root and nothing else. */
  lemma DotSlashMakesRelative(s: string)
    ensures ParsePath("./" + PathText(ParsePath(s))) == PurePath("", ParsePath(s).parts)
  {
    var p := ParsePath(s);
    var rest := PathText(p);
    SplitPrefix(".", '/', rest);
    assert "./" + rest == "." + ['/'] + rest;
    KeptOfConcat(["."], Split(rest, '/'));
    assert KeptParts(["."]) == [];
    KeptOfPathText(p);
    assert ("./" + rest)[0] == '.';
  }

  lemma KeptOfPathText(p: PurePath)
    requires p.root in {"", "/", "//"} && forall n | n in p.parts :: WrittenPart(n)
    ensures KeptParts(Split(PathText(p), '/')) == p.parts
  {
    var joined := Join(p.parts, '/');
    if p.parts == [] {
      SplitFree(joined, '/'); SplitFree(".", '/');
    } else {
      SplitOfJoin(p.parts, '/');
      KeptOfKept(p.parts);
    }
    if p.root == "/" {
      SplitPrefix("", '/', joined);
      assert p.root + joined == "" + ['/'] + joined;
    } else if p.root == "//" {
      SplitPrefix("", '/', "/" + joined);
      SplitPrefix("", '/', joined);
      assert p.root + joined == "" + ['/'] + ("/" + joined) && "/" + joined == "" + ['/'] + joined;
      KeptOfConcat([""], Split("/" + joined, '/'));
    } else {
      assert p.root + joined == joined;
    }
  }

  /** A resolved path written out, as a download lists it, reads back as the same components. */
  lemma ParseOfWritten(p: Path)
    requires p != [] && ValidNames(p)
    ensures ParsePath(Join(p, '/')) == PurePath("", p)
  {
    SplitOfJoin(p, '/');
    KeptOfKept(p);
    JoinStart(p);
  }

  lemma {:induction false} JoinStart(p: Path)
    requires p != [] && ValidNames(p)
    ensures Join(p, '/') != "" && Join(p, '/')[0] != '/'
    ensures Join(p, '/')[|Join(p, '/')| - 1] != '/'
  {
    assert ValidName(p[0]);
    if |p| > 1 {
      JoinStart(p[1..]);
    }
  }

  /** Resolution only ever appends valid names. */
  lemma {:induction false} ResolveKeepsValidNames(base: Path, parts: seq<string>)
    requires ValidNames(base) && forall n | n in parts :: WrittenPart(n)
    ensures ValidNames(Resolve(base, parts))
    decreases parts
  {
    if parts != [] {
      assert WrittenPart(parts[0]);
      ResolveKeepsValidNames(if parts[0] == ".." then Parent(base) else base + [parts[0]], parts[1..]);
    }
  }

  /** Components without ".." are simply appended. */
  lemma {:induction false} ResolvePlain(base: Path, parts: seq<string>)
    requires ".." !in parts
    ensures Resolve(base, parts) == base + parts
    decreases parts
  {
    if parts == [] {
      assert base + parts == base;
    } else {
      ResolvePlain(base + [parts[0]], parts[1..]);
      assert base + [parts[0]] + parts[1..] == base + parts;
    }
  }

  /* ---- fresh names ---- */

  /** Index of the last dot, or -1. */
  function LastDot(s: string): (i: int)
    ensures -1 <= i < |s| && (i >= 0 ==> s[i] == '.')
  {
    if s == "" then -1 else if s[|s| - 1] == '.' then |s| - 1 else LastDot(s[..|s| - 1])
  }

  function Stem(name: string): string {
    var i := LastDot(name);
    if 0 < i < |name| - 1 then name[..i] else name
  }

  function Suffix(name: string): string {
    var i := LastDot(name);
    if 0 < i < |name| - 1 then name[i..] else ""
  }

  function NumberedName(name: string, isDir: bool, i: nat): string {
    if i <= 1 then name
    else if isDir then name + " (" + Decimal(i) + ")"
    else Stem(name) + " (" + Decimal(i) + ")" + Suffix(name)
  }

  /** The i-th path tried; the first one is the path itself. */
  function Candidate(path: Path, isDir: bool, i: nat): Path {
    if i <= 1 then path else Parent(path) + [NumberedName(Name(path), isDir, i)]
  }

  lemma NumberedNameSplits(name: string, isDir: bool, i: nat)
    requires i >= 2
    ensures exists front, back ::
      front + back == name && NumberedName(name, isDir, i) == front + (" (" + Decimal(i) + ")") + back
      && front == (if isDir then name else Stem(name)) && back == (if isDir then "" else Suffix(name))
  {
    var front, back := if isDir then name else Stem(name), if isDir then "" else Suffix(name);
    assert front + back == name;
    assert NumberedName(name, isDir, i) == front + (" (" + Decimal(i) + ")") + back;
  }

  lemma NumberedNamesDiffer(name: string, isDir: bool, i: nat, j: nat)
    requires 1 <= i < j
    ensures NumberedName(name, isDir, i) != NumberedName(name, isDir, j)
  {
    NumberedNameSplits(name, isDir, j);
    if i >= 2 && NumberedName(name, isDir, i) == NumberedName(name, isDir, j) {
      NumberedNameSplits(name, isDir, i);
      var front, back := if isDir then name else Stem(name), if isDir then "" else Suffix(name);
      var a, b := front + (" (" + Decimal(i) + ")") + back, front + (" (" + Decimal(j) + ")") + back;
      assert |Decimal(i)| == |Decimal(j)|;
      assert Decimal(i) == a[|front| + 2..|front| + 2 + |Decimal(i)|];
      assert Decimal(j) == b[|front| + 2..|front| + 2 + |Decimal(j)|];
      DecimalInjective(i, j);
    }
  }

  lemma CandidatesDiffer(path: Path, isDir: bool, i: nat, j: nat)
    requires 1 <= i < j
    ensures Candidate(path, isDir, i) != Candidate(path, isDir, j)
  {
    NumberedNamesDiffer(Name(path), isDir, i, j);
    var a, b := Candidate(path, isDir, i), Candidate(path, isDir, j);
    assert b[|b| - 1] == NumberedName(Name(path), isDir, j);
    if i >= 2 || path != [] {
      assert a[|a| - 1] == NumberedName(Name(path), isDir, i);
    }
  }

  /** A numbered name is valid and never the original one. */
  lemma NumberedNameValid(name: string, isDir: bool, i: nat)
    requires '/' !in name && i >= 2
    ensures ValidName(NumberedName(name, isDir, i))
  {
    NumberedNameSplits(name, isDir, i);
    var front, back := if isDir then name else Stem(name), if isDir then "" else Suffix(name);
    var n := NumberedName(name, isDir, i);
    assert n == front + (" (" + Decimal(i) + ")") + back;
    assert forall c | c in Decimal(i) :: IsDigit(c);
    assert forall c | c in front || c in back :: c in front + back;
    assert |n| >= 4;
  }
}
