/** The version grammar: six formats tried in order, and the record read from the one that matches. */
module Versions {
  import opened Text

  datatype Format = OldRelease | NewRelease | OldPrerelease | NewPrerelease | OldSnapshot | NewSnapshot

  /** The named groups of one regular expression. */
  datatype Groups = Groups(major: string, minor: string, patch: Option<string>,
                           suffix: Option<string>, build: Option<string>)

  datatype Kind = Release | Prerelease | Snapshot
  datatype System = Old | New
  datatype Build = Number(n: nat) | Letter(c: char)

  datatype Parsed = Parsed(text: string, kind: Kind, system: System, major: nat, minor: nat, patch: nat,
                           build: Build, suffix: Option<string>)

  /* ---- what each regular expression accepts ---- */

  predicate Digits(s: string) {
    s != "" && AllDigits(s)
  }

  predicate ShortDigits(s: string) {
    Digits(s) && |s| <= 2
  }

  predicate TwoDigitText(s: string) {
    Digits(s) && |s| == 2
  }

  /** Which texts the groups of a format may hold. */
  predicate Admits(f: Format, g: Groups) {
    match f
    case OldRelease => OldNumbers(g) && g.suffix.None? && g.build.None?
    case NewRelease => NewNumbers(g) && g.suffix.None? && g.build.None?
    case OldPrerelease => OldNumbers(g) && PreOrRc(g.suffix) && g.build.Some? && Digits(g.build.value)
    case NewPrerelease => NewNumbers(g) && PreOrRc(g.suffix) && g.build.Some? && Digits(g.build.value)
    case NewSnapshot => NewNumbers(g) && g.suffix == Some("snapshot") && g.build.Some? && Digits(g.build.value)
    case OldSnapshot =>
      && TwoDigitText(g.major) && TwoDigitText(g.minor) && g.patch.None? && g.suffix.None?
      && g.build.Some? && |g.build.value| == 1 && 'a' <= g.build.value[0] <= 'z'
  }

  predicate OldNumbers(g: Groups) {
    ShortDigits(g.major) && ShortDigits(g.minor) && (g.patch.Some? ==> ShortDigits(g.patch.value))
  }

  predicate NewNumbers(g: Groups) {
    TwoDigitText(g.major) && Digits(g.minor) && (g.patch.Some? ==> Digits(g.patch.value))
  }

  predicate PreOrRc(suffix: Option<string>) {
    suffix == Some("pre") || suffix == Some("rc")
  }

  /** The whole text around the groups; the expressions are anchored at both ends. */
  function Layout(f: Format, g: Groups): string
    requires Admits(f, g)
  {
    match f
    case OldRelease => NumberText(g)
    case NewRelease => NumberText(g)
    case OldPrerelease => NumberText(g) + "-" + g.suffix.value + g.build.value
    case NewPrerelease => NumberText(g) + "-" + g.suffix.value + "-" + g.build.value
    case NewSnapshot => NumberText(g) + "-" + g.suffix.value + "-" + g.build.value
    case OldSnapshot => g.major + "w" + g.minor + g.build.value
  }

  function NumberText(g: Groups): string {
    g.major + "." + g.minor + PatchText(g.patch)
  }

  function PatchText(patch: Option<string>): string {
    match patch
    case None => ""
    case Some(p) => "." + p
  }

  predicate Accepts(f: Format, s: string, g: Groups) {
    Admits(f, g) && s == Layout(f, g)
  }

  /* ---- matching by scanning ---- */

  /** Length of the run of digits at the front. */
  function DigitRun(s: string): (k: nat)
    ensures k <= |s| && AllDigits(s[..k]) && (k < |s| ==> !IsDigit(s[k]))
  {
    if s == "" || !IsDigit(s[0]) then 0 else 1 + DigitRun(s[1..])
  }

  lemma {:induction false} DigitRunSplits(digits: string, rest: string)
    requires AllDigits(digits) && (rest == "" || !IsDigit(rest[0]))
    ensures DigitRun(digits + rest) == |digits|
    ensures (digits + rest)[..|digits|] == digits && (digits + rest)[|digits|..] == rest
  {
    if digits == "" {
      assert digits + rest == rest;
    } else {
      DigitRunSplits(digits[1..], rest);
      assert (digits + rest)[1..] == digits[1..] + rest;
    }
  }

  predicate StartsWith(s: string, prefix: string) {
    |prefix| <= |s| && s[..|prefix|] == prefix
  }

  /** An optional dot and run of digits, and what follows. */
  function ScanPatch(s: string): (Option<string>, string) {
    if s != "" && s[0] == '.' then
      var n := DigitRun(s[1..]);
      (Some(s[1..][..n]), s[1..][n..])
    else
      (None, s)
  }

  /** Two or three dotted runs of digits and what follows them. */
  function ScanNumbers(s: string): Option<(Groups, string)> {
    var k := DigitRun(s);
    if k == |s| || s[k] != '.' then None
    else
      var afterMajor := s[k + 1..];
      var m := DigitRun(afterMajor);
      var (patch, tail) := ScanPatch(afterMajor[m..]);
      Some((Groups(s[..k], afterMajor[..m], patch, None, None), tail))
  }

  function ScanTail(f: Format, tail: string): Option<(Option<string>, Option<string>)> {
    match f
    case OldPrerelease =>
      if StartsWith(tail, "-pre") then Some((Some("pre"), Some(tail[4..])))
      else if StartsWith(tail, "-rc") then Some((Some("rc"), Some(tail[3..])))
      else None
    case NewPrerelease =>
      if StartsWith(tail, "-pre-") then Some((Some("pre"), Some(tail[5..])))
      else if StartsWith(tail, "-rc-") then Some((Some("rc"), Some(tail[4..])))
      else None
    case NewSnapshot =>
      if StartsWith(tail, "-snapshot-") then Some((Some("snapshot"), Some(tail[10..]))) else None
    case _ =>
      if tail == "" then Some((None, None)) else None
  }

  /** `re.match` with one of the six expressions. */
  function Match(f: Format, s: string): Option<Groups> {
    if f == OldSnapshot then
      if |s| == 6 && s[2] == 'w' then
        var g := Groups(s[..2], s[3..5], None, None, Some(s[5..]));
        if Admits(f, g) then Some(g) else None
      else None
    else
      match ScanNumbers(s)
      case None => None
      case Some((numbers, tail)) =>
        match ScanTail(f, tail)
        case None => None
        case Some((suffix, build)) =>
          var g := numbers.(suffix := suffix, build := build);
          if Admits(f, g) then Some(g) else None
  }

  lemma ScanPatchSound(s: string)
    ensures s == PatchText(ScanPatch(s).0) + ScanPatch(s).1
  {
    if s != "" && s[0] == '.' {
      assert s == "." + s[1..];
      var n := DigitRun(s[1..]);
      assert s[1..] == s[1..][..n] + s[1..][n..];
    }
  }

  lemma ScanPatchComplete(patch: Option<string>, tail: string)
    requires patch.Some? ==> AllDigits(patch.value)
    requires tail == "" || tail[0] == '-'
    ensures ScanPatch(PatchText(patch) + tail) == (patch, tail)
  {
    var s := PatchText(patch) + tail;
    if patch.Some? {
      assert s[1..] == patch.value + tail;
      DigitRunSplits(patch.value, tail);
    } else {
      assert s == tail;
    }
  }

  /** The number text with its parts associated the way they are scanned. */
  lemma NumberTextAssociates(g: Groups, tail: string)
    ensures NumberText(g) + tail == g.major + ("." + (g.minor + (PatchText(g.patch) + tail)))
  {
  }

  lemma ScanNumbersSound(s: string)
    ensures ScanNumbers(s).Some? ==> s == NumberText(ScanNumbers(s).value.0) + ScanNumbers(s).value.1
  {
    if ScanNumbers(s).Some? {
      var (g, tail) := ScanNumbers(s).value;
      var k := DigitRun(s);
      var afterMajor := s[k + 1..];
      var afterMinor := afterMajor[DigitRun(afterMajor)..];
      ScanPatchSound(afterMinor);
      NumberTextAssociates(g, tail);
      FrontAndRest(s, k);
      FrontAndRest(afterMajor, DigitRun(afterMajor));
    }
  }

  /** A text cut at a position, and behind the character there. */
  lemma FrontAndRest(s: string, k: nat)
    requires k <= |s|
    ensures s == s[..k] + s[k..]
    ensures k < |s| ==> s == s[..k] + ([s[k]] + s[k + 1..])
  {
  }

  lemma ScanNumbersComplete(g: Groups, tail: string)
    requires AllDigits(g.major) && AllDigits(g.minor) && (g.patch.Some? ==> AllDigits(g.patch.value))
    requires tail == "" || tail[0] == '-'
    ensures ScanNumbers(NumberText(g) + tail) == Some((g.(suffix := None, build := None), tail))
  {
    var afterMinor := PatchText(g.patch) + tail;
    var afterMajor := g.minor + afterMinor;
    var s := g.major + ("." + afterMajor);
    NumberTextAssociates(g, tail);
    DigitRunSplits(g.major, "." + afterMajor);
    assert s[|g.major| + 1..] == afterMajor by {
      assert s[|g.major|..] == "." + afterMajor;
      assert s[|g.major| + 1..] == s[|g.major|..][1..];
    }
    DigitRunSplits(g.minor, afterMinor);
    ScanPatchComplete(g.patch, tail);
  }

  /** The text after the numbers, for every format but the old snapshots. */
  function TailText(f: Format, g: Groups): string
    requires Admits(f, g) && f != OldSnapshot
  {
    match f
    case OldRelease => ""
    case NewRelease => ""
    case OldPrerelease => "-" + g.suffix.value + g.build.value
    case NewPrerelease => "-" + g.suffix.value + "-" + g.build.value
    case NewSnapshot => "-" + g.suffix.value + "-" + g.build.value
  }

  lemma LayoutIsNumbersAndTail(f: Format, g: Groups)
    requires Admits(f, g) && f != OldSnapshot
    ensures Layout(f, g) == NumberText(g) + TailText(f, g)
  {
    if f == OldPrerelease {
      assert Layout(f, g) == NumberText(g) + ("-" + g.suffix.value + g.build.value);
    } else if f == NewPrerelease || f == NewSnapshot {
      assert Layout(f, g) == NumberText(g) + ("-" + g.suffix.value + "-" + g.build.value);
    } else {
      assert NumberText(g) + "" == NumberText(g);
    }
  }

  lemma ScanTailComplete(f: Format, g: Groups)
    requires Admits(f, g) && f != OldSnapshot
    ensures ScanTail(f, TailText(f, g)) == Some((g.suffix, g.build))
  {
    var tail := TailText(f, g);
    if f == OldPrerelease || f == NewPrerelease {
      assert |tail| > 2 && tail[1] == g.suffix.value[0];
      if f == OldPrerelease {
        assert tail[1 + |g.suffix.value|..] == g.build.value;
      } else {
        assert tail[2 + |g.suffix.value|..] == g.build.value;
      }
    } else if f == NewSnapshot {
      assert tail[10..] == g.build.value;
    }
  }

  lemma ScanTailSound(f: Format, tail: string)
    requires f != OldSnapshot && ScanTail(f, tail).Some?
    ensures forall g | Admits(f, g) && ScanTail(f, tail) == Some((g.suffix, g.build)) :: tail == TailText(f, g)
  {
    forall g | Admits(f, g) && ScanTail(f, tail) == Some((g.suffix, g.build))
      ensures tail == TailText(f, g)
    {
      if f == OldPrerelease || f == NewPrerelease || f == NewSnapshot {
        var n := |tail| - |g.build.value|;
        assert tail == tail[..n] + tail[n..];
      }
    }
  }

  /** The scanner finds exactly the decompositions the expression describes, and there is at most one. */
  lemma MatchIsTheRegularExpression(f: Format, s: string, g: Groups)
    ensures Match(f, s) == Some(g) <==> Accepts(f, s, g)
  {
    if Accepts(f, s, g) {
      if f == OldSnapshot {
        assert s[..2] == g.major && s[3..5] == g.minor && s[5..] == g.build.value;
      } else {
        LayoutIsNumbersAndTail(f, g);
        ScanNumbersComplete(g, TailText(f, g));
        ScanTailComplete(f, g);
      }
    }
    if Match(f, s) == Some(g) {
      if f == OldSnapshot {
        assert s == s[..2] + "w" + s[3..5] + s[5..];
      } else {
        ScanNumbersSound(s);
        var tail := ScanNumbers(s).value.1;
        ScanTailSound(f, tail);
        LayoutIsNumbersAndTail(f, g);
        assert NumberText(ScanNumbers(s).value.0) == NumberText(g);
      }
    }
  }

  /** A text in the old snapshot layout has no dotted numbers at its front. */
  lemma SnapshotLayoutHasNoNumbers(g: Groups)
    requires Admits(OldSnapshot, g)
    ensures ScanNumbers(Layout(OldSnapshot, g)) == None
  {
    var rest := "w" + (g.minor + g.build.value);
    assert Layout(OldSnapshot, g) == g.major + rest;
    DigitRunSplits(g.major, rest);
    assert (g.major + rest)[|g.major|] == 'w';
  }

  lemma ScanOfLayout(f: Format, g: Groups)
    requires Admits(f, g) && f != OldSnapshot
    ensures ScanNumbers(Layout(f, g)) == Some((g.(suffix := None, build := None), TailText(f, g)))
  {
    LayoutIsNumbersAndTail(f, g);
    ScanNumbersComplete(g, TailText(f, g));
  }

  /** The tail tells the formats apart, except the two releases. */
  lemma TailDecidesFormat(f: Format, g: Groups, f': Format, g': Groups)
    requires f != f' && f != OldSnapshot && f' != OldSnapshot && Admits(f, g) && Admits(f', g')
    requires TailText(f, g) == TailText(f', g')
    ensures f in {OldRelease, NewRelease} && f' in {OldRelease, NewRelease}
  {
    var tail := TailText(f, g);
    if tail != "" {
      TailSecondPart(f, g);
      TailSecondPart(f', g');
    }
  }

  /** The suffix letter and the character behind the suffix: a digit in the old layout, a dash in the new one. */
  lemma TailSecondPart(f: Format, g: Groups)
    requires f in {OldPrerelease, NewPrerelease, NewSnapshot} && Admits(f, g)
    ensures var tail, n := TailText(f, g), 1 + |g.suffix.value|;
            n < |tail| && tail[1] == g.suffix.value[0] && (if f == OldPrerelease then IsDigit(tail[n]) else tail[n] == '-')
  {
  }

  /** Two different formats accept one text only when both read it as a release, with the same groups. */
  lemma FormatsOverlapOnlyOnReleases(f: Format, g: Groups, f': Format, g': Groups, s: string)
    requires f != f' && Accepts(f, s, g) && Accepts(f', s, g')
    ensures g == g' && f in {OldRelease, NewRelease} && f' in {OldRelease, NewRelease}
  {
    if f == OldSnapshot {
      SnapshotLayoutHasNoNumbers(g);
      ScanOfLayout(f', g');
      assert false;
    } else if f' == OldSnapshot {
      SnapshotLayoutHasNoNumbers(g');
      ScanOfLayout(f, g);
      assert false;
    } else {
      ScanOfLayout(f, g);
      ScanOfLayout(f', g');
      TailDecidesFormat(f, g, f', g');
    }
  }

  /* ---- the record ---- */

  function ReadGroups(f: Format, s: string, g: Groups): Parsed
    requires Admits(f, g)
  {
    var major, minor := ParseNat(g.major), ParseNat(g.minor);
    var patch := if g.patch.Some? then ParseNat(g.patch.value) else 0;
    match f
    case OldRelease => Parsed(s, Release, Old, major, minor, patch, Number(0), None)
    case NewRelease => Parsed(s, Release, New, major, minor, patch, Number(0), None)
    case OldPrerelease => Parsed(s, Prerelease, Old, major, minor, patch, Number(ParseNat(g.build.value)), g.suffix)
    case NewPrerelease => Parsed(s, Prerelease, New, major, minor, patch, Number(ParseNat(g.build.value)), g.suffix)
    case OldSnapshot => Parsed(s, Snapshot, Old, major, minor, 0, Letter(g.build.value[0]), None)
    case NewSnapshot => Parsed(s, Snapshot, New, major, minor, patch, Number(ParseNat(g.build.value)), g.suffix)
  }

  /** The order in which the expressions are tried. */
  const TRIED: seq<Format> :=
    [OldRelease, NewRelease, OldPrerelease, NewPrerelease, OldSnapshot, NewSnapshot]

  function FirstMatch(formats: seq<Format>, s: string): Option<Parsed> {
    if formats == [] then None
    else
      match Match(formats[0], s)
      case Some(g) => (MatchAdmits(formats[0], s); Some(ReadGroups(formats[0], s, g)))
      case None => FirstMatch(formats[1..], s)
  }

  lemma MatchAdmits(f: Format, s: string)
    ensures Match(f, s).Some? ==> Admits(f, Match(f, s).value)
  {
  }

  function ParseVersion(s: string): Option<Parsed> {
    FirstMatch(TRIED, s)
  }

  /** Whatever format accepts a text, the record carries that format's reading; only the tag old or new of a
      release depends on the order of the attempts. */
  lemma ParseReadsAnyFormat(f: Format, s: string, g: Groups)
    requires Accepts(f, s, g)
    ensures ParseVersion(s).Some?
    ensures ParseVersion(s).value.(system := Old) == ReadGroups(f, s, g).(system := Old)
    ensures f != NewRelease ==> ParseVersion(s).value == ReadGroups(f, s, g)
  {
    MatchIsTheRegularExpression(f, s, g);
    var i := FirstMatchIndex(TRIED, s, f);
    var h := TRIED[i];
    assert f == TRIED[0] ==> i == 0;
    MatchAdmits(h, s);
    MatchIsTheRegularExpression(h, s, Match(h, s).value);
    if h != f {
      FormatsOverlapOnlyOnReleases(f, g, h, Match(h, s).value, s);
    }
  }

  lemma {:induction false} FirstMatchIndex(formats: seq<Format>, s: string, f: Format) returns (i: nat)
    requires f in formats && Match(f, s).Some?
    ensures i < |formats| && Match(formats[i], s).Some? && Admits(formats[i], Match(formats[i], s).value)
    ensures FirstMatch(formats, s) == Some(ReadGroups(formats[i], s, Match(formats[i], s).value))
    ensures forall j | 0 <= j < i :: Match(formats[j], s).None?
  {
    MatchAdmits(formats[0], s);
    if Match(formats[0], s).Some? {
      i := 0;
    } else {
      var k := FirstMatchIndex(formats[1..], s, f);
      i := k + 1;
      forall j | 0 <= j < i ensures Match(formats[j], s).None? {
        if j > 0 {
          assert formats[j] == formats[1..][j - 1];
        }
      }
    }
  }

  /** A parsed text was accepted by some format, with that reading. */
  lemma {:induction false} FirstMatchSound(formats: seq<Format>, s: string) returns (f: Format, g: Groups)
    requires FirstMatch(formats, s).Some?
    ensures f in formats && Accepts(f, s, g) && FirstMatch(formats, s) == Some(ReadGroups(f, s, g))
  {
    match Match(formats[0], s)
    case Some(h) =>
      MatchAdmits(formats[0], s);
      f, g := formats[0], h;
      MatchIsTheRegularExpression(f, s, g);
    case None =>
      f, g := FirstMatchSound(formats[1..], s);
  }

  /* ---- printing ---- */

  function PadTwo(n: nat): (s: string)
    requires n < 100
    ensures TwoDigitText(s)
  {
    TwoDigits(n);
    if n < 10 then "0" + Decimal(n) else Decimal(n)
  }

  lemma ParseOfPadTwo(n: nat)
    requires n < 100
    ensures ParseNat(PadTwo(n)) == n
  {
    ParseOfDecimal(n);
    if n < 10 {
      assert PadTwo(n)[..1] == "0";
      assert ParseNat("0") == 0;
    }
  }

  /** The records a version text can have. */
  predicate Printable(v: Parsed) {
    match v.kind
    case Release => v.major < 100 && v.build == Number(0) && v.suffix == None
    case Prerelease =>
      && v.major < 100 && v.build.Number? && PreOrRc(v.suffix)
      && (v.system == Old ==> v.minor < 100 && v.patch < 100)
    case Snapshot =>
      && v.major < 100
      && (v.system == Old ==> v.minor < 100 && v.patch == 0 && v.suffix == None && v.build.Letter? && 'a' <= v.build.c <= 'z')
      && (v.system == New ==> v.build.Number? && v.suffix == Some("snapshot"))
  }

  function FormatOf(v: Parsed): Format {
    match v.kind
    case Release => if v.major < 100 && v.minor < 100 && v.patch < 100 then OldRelease else NewRelease
    case Prerelease => if v.system == Old then OldPrerelease else NewPrerelease
    case Snapshot => if v.system == Old then OldSnapshot else NewSnapshot
  }

  function GroupsOf(v: Parsed): (g: Groups)
    requires Printable(v)
    ensures Admits(FormatOf(v), g)
  {
    TwoDigits(v.major); TwoDigits(v.minor); TwoDigits(v.patch);
    var f := FormatOf(v);
    if f == OldSnapshot then
      Groups(PadTwo(v.major), PadTwo(v.minor), None, None, Some([v.build.c]))
    else
      Groups(if f in {OldRelease, OldPrerelease} then Decimal(v.major) else PadTwo(v.major), Decimal(v.minor),
             if v.patch == 0 then None else Some(Decimal(v.patch)), v.suffix,
             if v.kind == Release then None else Some(Decimal(v.build.n)))
  }

  function PrintVersion(v: Parsed): string
    requires Printable(v)
  {
    Layout(FormatOf(v), GroupsOf(v))
  }

  /** The groups printed for a record read back as the record. */
  lemma ReadingPrintedGroups(v: Parsed, s: string)
    requires Printable(v)
    ensures ReadGroups(FormatOf(v), s, GroupsOf(v)) ==
            v.(text := s, system := if v.kind == Release then PrintedSystem(v) else v.system)
  {
    ParseOfDecimal(v.major); ParseOfDecimal(v.minor); ParseOfDecimal(v.patch);
    ParseOfPadTwo(v.major);
    if FormatOf(v) == OldSnapshot {
      ParseOfPadTwo(v.minor);
    } else if v.kind != Release {
      ParseOfDecimal(v.build.n);
    }
  }

  function PrintedSystem(v: Parsed): System {
    if FormatOf(v) == OldRelease then Old else New
  }

  /** Reading back a printed version returns the record; only a release's system tag is recomputed. */
  lemma ParseOfPrint(v: Parsed)
    requires Printable(v)
    ensures ParseVersion(PrintVersion(v)) ==
            Some(v.(text := PrintVersion(v), system := if v.kind == Release then PrintedSystem(v) else v.system))
  {
    var f, g, s := FormatOf(v), GroupsOf(v), PrintVersion(v);
    ReadingPrintedGroups(v, s);
    ParseReadsAnyFormat(f, s, g);
    if f == NewRelease {
      NewReleaseIsRead(v);
    }
  }

  lemma NewReleaseIsRead(v: Parsed)
    requires Printable(v) && FormatOf(v) == NewRelease
    ensures ParseVersion(PrintVersion(v)) == Some(ReadGroups(NewRelease, PrintVersion(v), GroupsOf(v)))
  {
    var g, s := GroupsOf(v), PrintVersion(v);
    LongNumberIsNotOld(v);
    MatchIsTheRegularExpression(NewRelease, s, g);
    SecondFormatReads(s, g);
  }

  lemma SecondFormatReads(s: string, g: Groups)
    requires Match(OldRelease, s).None? && Match(NewRelease, s) == Some(g) && Admits(NewRelease, g)
    ensures ParseVersion(s) == Some(ReadGroups(NewRelease, s, g))
  {
    var i := FirstMatchIndex(TRIED, s, NewRelease);
    assert TRIED[0] == OldRelease && TRIED[1] == NewRelease;
    assert i == 1;
  }

  lemma LongNumberIsNotOld(v: Parsed)
    requires Printable(v) && FormatOf(v) == NewRelease
    ensures Match(OldRelease, PrintVersion(v)).None?
  {
    var s, g := PrintVersion(v), GroupsOf(v);
    TwoDigits(v.minor); TwoDigits(v.patch);
    if Match(OldRelease, s).Some? {
      var h := Match(OldRelease, s).value;
      MatchAdmits(OldRelease, s);
      MatchIsTheRegularExpression(OldRelease, s, h);
      FormatsOverlapOnlyOnReleases(OldRelease, h, NewRelease, g, s);
    }
  }

  lemma ReadingIsPrintable(f: Format, s: string, g: Groups)
    requires Admits(f, g)
    ensures Printable(ReadGroups(f, s, g))
  {
    ParseNatBound(g.major);
    if f in {OldRelease, OldPrerelease, OldSnapshot} {
      ParseNatBound(g.minor);
      if g.patch.Some? {
        ParseNatBound(g.patch.value);
      }
    }
  }

  /** Every record the parser returns can be printed, so the round trip covers all of them. */
  lemma ParsedIsPrintable(s: string)
    requires ParseVersion(s).Some?
    ensures Printable(ParseVersion(s).value) && ParseVersion(s).value.text == s
  {
    var f, g := FirstMatchSound(TRIED, s);
    ReadingIsPrintable(f, s, g);
  }

  /* ---- samples ---- */

  lemma SampleReads(f: Format, s: string, g: Groups, v: Parsed)
    requires Admits(f, g) && s == Layout(f, g) && f != NewRelease && v == ReadGroups(f, s, g)
    ensures ParseVersion(s) == Some(v)
  {
    ParseReadsAnyFormat(f, s, g);
  }

  lemma SampleNumbers()
    ensures ParseNat("1") == 1 && ParseNat("4") == 4 && ParseNat("21") == 21 && ParseNat("26") == 26 && ParseNat("100") == 100
  {
    assert ParseNat("2") == 2 && ParseNat("1") == 1 && ParseNat("10") == 10 by { assert "10"[..1] == "1"; }
    assert "21"[..1] == "2" && "26"[..1] == "2" && "100"[..2] == "10";
  }

  /** Texts of the other formats, and what is read from them. */
  lemma PrereleaseSample() returns (s: string)
    ensures s == "1.21-pre4" && ParseVersion(s) == Some(Parsed(s, Prerelease, Old, 1, 21, 0, Number(4), Some("pre")))
  {
    SampleNumbers();
    s := "1" + "." + "21" + "-" + "pre" + "4";
    SampleReads(OldPrerelease, s, Groups("1", "21", None, Some("pre"), Some("4")),
                Parsed(s, Prerelease, Old, 1, 21, 0, Number(4), Some("pre")));
  }

  lemma NewPrereleaseSample() returns (s: string)
    ensures s == "26.100-rc-4" && ParseVersion(s) == Some(Parsed(s, Prerelease, New, 26, 100, 0, Number(4), Some("rc")))
  {
    SampleNumbers();
    s := "26" + "." + "100" + "-" + "rc" + "-" + "4";
    SampleReads(NewPrerelease, s, Groups("26", "100", None, Some("rc"), Some("4")),
                Parsed(s, Prerelease, New, 26, 100, 0, Number(4), Some("rc")));
  }

  lemma SnapshotSample() returns (s: string)
    ensures s == "26w21a" && ParseVersion(s) == Some(Parsed(s, Snapshot, Old, 26, 21, 0, Letter('a'), None))
  {
    SampleNumbers();
    s := "26" + "w" + "21" + "a";
    SampleReads(OldSnapshot, s, Groups("26", "21", None, None, Some("a")), Parsed(s, Snapshot, Old, 26, 21, 0, Letter('a'), None));
  }

  lemma NewSnapshotSample() returns (s: string)
    ensures s == "26.1-snapshot-4" && ParseVersion(s) == Some(Parsed(s, Snapshot, New, 26, 1, 0, Number(4), Some("snapshot")))
  {
    SampleNumbers();
    s := "26" + "." + "1" + "-" + "snapshot" + "-" + "4";
    SampleReads(NewSnapshot, s, Groups("26", "1", None, Some("snapshot"), Some("4")),
                Parsed(s, Snapshot, New, 26, 1, 0, Number(4), Some("snapshot")));
  }
}
