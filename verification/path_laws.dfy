/** What resolving a user path means, without walking it: the written components are reduced, and the reduced path is
    accepted exactly when it comes back to the base. */
module PathLaws {
  import opened Text
  import opened Paths

  /* ---- a resolution, step by step ---- */

  lemma {:induction false} ResolveAppend(base: Path, a: seq<string>, b: seq<string>)
    ensures Resolve(base, a + b) == Resolve(Resolve(base, a), b)
    decreases a
  {
    if a == [] {
      assert a + b == b;
    } else {
      assert (a + b)[1..] == a[1..] + b;
      ResolveAppend(if a[0] == ".." then Parent(base) else base + [a[0]], a[1..], b);
    }
  }

  /** A last ".." goes up from where the rest leads. */
  lemma ResolveUp(base: Path, parts: seq<string>)
    ensures Resolve(base, parts + [".."]) == Parent(Resolve(base, parts))
  {
    ResolveAppend(base, parts, [".."]);
    var at := Resolve(base, parts);
    assert [".."][1..] == [];
    assert Resolve(at, [".."]) == Resolve(Parent(at), []);
  }

  /** Any other last component goes down from there. */
  lemma ResolveDown(base: Path, parts: seq<string>, n: string)
    requires n != ".."
    ensures Resolve(base, parts + [n]) == Resolve(base, parts) + [n]
  {
    ResolveAppend(base, parts, [n]);
    var at := Resolve(base, parts);
    assert [n][1..] == [];
    assert Resolve(at, [n]) == Resolve(at + [n], []);
  }

  /** The parent and the name of a path. */
  lemma ParentAndName(p: Path)
    ensures p != [] ==> Parent(p) + [Name(p)] == p
    ensures p == [] ==> Parent(p) == [] && Name(p) == ""
  {
  }

  /* ---- reduced paths ---- */

  /** So many steps up, then these components down. */
  datatype Reduced = Reduced(ups: nat, downs: seq<string>)

  /** Every ".." takes back the component before it, or is a step up if there is none. */
  function Reduce(parts: seq<string>): Reduced {
    if parts == [] then Reduced(0, [])
    else
      var n := |parts| - 1;
      var before := Reduce(parts[..n]);
      if parts[n] != ".." then before.(downs := before.downs + [parts[n]])
      else if before.downs != [] then before.(downs := before.downs[..|before.downs| - 1])
      else before.(ups := before.ups + 1)
  }

  /** Some levels up; the root is its own parent. */
  function Above(base: Path, ups: nat): Path {
    if ups <= |base| then base[..|base| - ups] else []
  }

  function Landing(base: Path, parts: seq<string>): Path {
    Above(base, Reduce(parts).ups) + Reduce(parts).downs
  }

  lemma {:induction false} ResolveIsLanding(base: Path, parts: seq<string>)
    ensures Resolve(base, parts) == Landing(base, parts)
  {
    if parts != [] {
      var n := |parts| - 1;
      var front, last := parts[..n], parts[n];
      ResolveIsLanding(base, front);
      assert parts == front + [last];
      var before := Reduce(front);
      if last == ".." {
        ResolveUp(base, front);
        if before.downs != [] {
          assert Parent(Above(base, before.ups) + before.downs) == Above(base, before.ups) + before.downs[..|before.downs| - 1];
        } else {
          assert Above(base, before.ups) + before.downs == Above(base, before.ups);
          assert Parent(Above(base, before.ups)) == Above(base, before.ups + 1);
          assert Above(base, before.ups + 1) + before.downs == Above(base, before.ups + 1);
        }
      } else {
        ResolveDown(base, front, last);
        assert Above(base, before.ups) + before.downs + [last] == Above(base, before.ups) + (before.downs + [last]);
      }
    }
  }

  /** A user path is accepted exactly when its reduced form does not leave the base, or comes back to it over the
      base's own last components; the target is then the base with the reduced components. */
  lemma SafePathExactlyWhen(base: Path, user: PurePath)
    ensures var reduced := Reduce(user.parts);
            SafeUserPath(base, user) ==
            if base <= Above(base, reduced.ups) + reduced.downs then Some(Above(base, reduced.ups) + reduced.downs) else None
  {
    ResolveIsLanding(base, user.parts);
  }

  lemma InsideIsAccepted(base: Path, user: PurePath)
    requires Reduce(user.parts).ups == 0
    ensures SafeUserPath(base, user) == Some(base + Reduce(user.parts).downs)
  {
    SafePathExactlyWhen(base, user);
    assert Above(base, 0) == base;
  }

  /** A path that goes up is refused unless the components it goes down begin with those it went up over. */
  lemma LeavingIsRefused(base: Path, user: PurePath)
    requires 0 < Reduce(user.parts).ups <= |base|
    ensures var reduced := Reduce(user.parts);
            SafeUserPath(base, user).None? <==> !(base[|base| - reduced.ups..] <= reduced.downs)
  {
    SafePathExactlyWhen(base, user);
    var reduced := Reduce(user.parts);
    var up, own := Above(base, reduced.ups), base[|base| - reduced.ups..];
    assert base == up + own;
    if own <= reduced.downs {
      assert (up + reduced.downs)[..|base|] == base;
    }
    if base <= up + reduced.downs {
      assert reduced.downs[..reduced.ups] == (up + reduced.downs)[|up|..|base|] == own;
    }
  }

  lemma TwoParts(a: string, b: string)
    requires WrittenPart(a) && WrittenPart(b)
    ensures ParsePath(a + "/" + b) == PurePath("", [a, b])
  {
    SplitPrefix(a, '/', b);
    SplitFree(b, '/');
    assert a + "/" + b == a + ['/'] + b;
    KeptOfKept([a, b]);
  }

  /** "../n" is refused, except where n is the base's own name. */
  lemma UpAndDown(base: Path, n: string)
    requires base != [] && WrittenPart(n) && n != ".."
    ensures SafeUserPath(base, ParsePath(".." + "/" + n)) == if n == Name(base) then Some(base) else None
  {
    TwoParts("..", n);
    assert ["..", n][..1] == [".."] && [".."][..0] == [];
    assert Reduce([".."]) == Reduced(1, []);
    assert Reduce(["..", n]) == Reduced(1, [n]);
    SafePathExactlyWhen(base, ParsePath(".." + "/" + n));
    ParentAndName(base);
  }

  /** "a/../n" is n. */
  lemma DownAndUp(base: Path, a: string, n: string)
    requires WrittenPart(a) && WrittenPart(n) && a != ".." && n != ".."
    ensures SafeUserPath(base, ParsePath(a + "/" + (".." + "/" + n))) == Some(base + [n])
  {
    SplitPrefix(a, '/', ".." + "/" + n);
    SplitPrefix("..", '/', n);
    SplitFree(n, '/');
    assert a + "/" + (".." + "/" + n) == a + ['/'] + (".." + "/" + n) && ".." + "/" + n == ".." + ['/'] + n;
    KeptOfKept([a, "..", n]);
    var parts := [a, "..", n];
    assert ParsePath(a + "/" + (".." + "/" + n)).parts == parts by {
      assert Split(a + "/" + (".." + "/" + n), '/') == [a] + ([".."] + [n]);
    }
    assert parts[..2] == [a, ".."] && [a, ".."][..1] == [a] && [a][..0] == [];
    assert Reduce([a]) == Reduced(0, [a]) && Reduce([a, ".."]) == Reduced(0, []);
    assert Reduce(parts) == Reduced(0, [n]);
    InsideIsAccepted(base, ParsePath(a + "/" + (".." + "/" + n)));
  }

  /* ---- reading and writing path texts ---- */

  /** The root of a text: one leading slash, or exactly two. */
  lemma RootOfText(s: string)
    ensures RootText(s) == "" <==> s == "" || s[0] != '/'
    ensures RootText(s) == "//" <==> |s| >= 2 && s[0] == s[1] == '/' && (|s| > 2 ==> s[2] != '/')
  {
  }

  /** The text of a path with nothing in it is a single dot. */
  lemma EmptyPathIsDot(s: string)
    requires s == "" || s == "." || s == "./"
    ensures PathText(ParsePath(s)) == "."
  {
    SplitFree(if s == "./" then "." else s, '/');
    if s == "./" {
      SplitPrefix(".", '/', "");
      assert s == "." + ['/'] + "";
    }
    NothingKept(Split(s, '/'));
  }

  /** The text of a relative path reads back as that path. */
  lemma WrittenReadsBack(parts: seq<string>)
    requires forall n | n in parts :: WrittenPart(n)
    ensures ParsePath(PathText(PurePath("", parts))) == PurePath("", parts)
  {
    KeptOfPathText(PurePath("", parts));
    if parts != [] {
      assert WrittenPart(parts[0]);
      JoinBegins(parts);
    }
  }

  lemma JoinBegins(parts: seq<string>)
    requires parts != [] && WrittenPart(parts[0])
    ensures Join(parts, '/') != "" && Join(parts, '/')[0] != '/'
  {
  }

  /** The components below a base: an absolute member path loses its root, any other its first component. */
  lemma DroppedFirst(root: string, parts: seq<string>)
    requires root != "" || parts != []
    ensures DropFirst(PurePath(root, parts)) == PurePath("", if root != "" then parts else parts[1..])
  {
    if root != "" {
      assert ([root] + parts)[1..] == parts;
    }
  }

  /* ---- names ---- */

  lemma {:induction false} LastDotBefore(front: string, extension: string)
    requires '.' !in extension
    ensures LastDot(front + "." + extension) == |front|
  {
    var s := front + "." + extension;
    if extension == "" {
      assert s[|s| - 1] == '.';
    } else {
      assert s[..|s| - 1] == front + "." + extension[..|extension| - 1];
      LastDotBefore(front, extension[..|extension| - 1]);
    }
  }

  lemma {:induction false} NoDot(name: string)
    requires '.' !in name
    ensures LastDot(name) == -1 && Stem(name) == name && Suffix(name) == ""
  {
    if name != "" {
      NoDot(name[..|name| - 1]);
    }
  }

  /** A name is its stem and its suffix; the suffix begins at the last dot, unless that begins or ends the name. */
  lemma StemAndSuffix(front: string, extension: string)
    requires '.' !in extension
    ensures var name := front + "." + extension;
            if front != "" && extension != "" then Stem(name) == front && Suffix(name) == "." + extension
            else Stem(name) == name && Suffix(name) == ""
  {
    LastDotBefore(front, extension);
    var name := front + "." + extension;
    assert name[..|front|] == front && name[|front|..] == "." + extension;
  }

  /** The names tried: the counter goes before a file's suffix and behind a directory's name. */
  lemma NumberedNames(front: string, extension: string, i: nat)
    requires '.' !in extension && front != "" && extension != "" && i >= 2
    ensures var name := front + "." + extension;
            && NumberedName(name, false, i) == front + " (" + Decimal(i) + ")" + "." + extension
            && NumberedName(name, true, i) == name + " (" + Decimal(i) + ")"
  {
    StemAndSuffix(front, extension);
    assert front + " (" + Decimal(i) + ")" + ("." + extension) == front + " (" + Decimal(i) + ")" + "." + extension;
  }

  /** The i-th candidate is the numbered name in the same folder. */
  lemma CandidateIsNumbered(path: Path, isDir: bool, i: nat)
    requires path != [] && i >= 1
    ensures Candidate(path, isDir, i) == Parent(path) + [NumberedName(Name(path), isDir, i)]
    ensures NumberedName(Name(path), isDir, 1) == Name(path)
  {
    ParentAndName(path);
  }

  /* ---- numerals ---- */

  /** A run of digits is read by place value. */
  lemma {:induction false} ReadByPlace(front: string, back: string)
    requires AllDigits(front) && AllDigits(back)
    ensures AllDigits(front + back) && ParseNat(front + back) == ParseNat(front) * Power(|back|) + ParseNat(back)
  {
    assert AllDigits(front + back);
    if back == "" {
      assert front + back == front;
    } else {
      var n := |back| - 1;
      ReadByPlace(front, back[..n]);
      assert (front + back)[..|front + back| - 1] == front + back[..n];
      assert Power(|back|) == 10 * Power(n);
      PlaceArithmetic(ParseNat(front), Power(n), ParseNat(back[..n]), DigitValue(back[n]));
    }
  }

  lemma PlaceArithmetic(front: nat, power: nat, back: nat, digit: nat)
    ensures 10 * (front * power + back) + digit == front * (10 * power) + (10 * back + digit)
  {
  }

  function Power(k: nat): nat {
    if k == 0 then 1 else 10 * Power(k - 1)
  }

  /** The ten digits. */
  lemma DigitsRead()
    ensures forall d: nat | d < 10 :: ParseNat([DigitChar(d)]) == d
    ensures Decimal(0) == "0" && Decimal(2) == "2" && Decimal(9) == "9" && Decimal(10) == "10" && Decimal(42) == "42"
  {
    forall d: nat | d < 10 ensures ParseNat([DigitChar(d)]) == d {
      assert [DigitChar(d)][..0] == "";
    }
  }
}
