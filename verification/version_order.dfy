/** Comparing two version texts: the numbers first, then release against prerelease, then publish dates. */
module VersionOrder {
  import opened Text
  import opened Versions

  /** One entry of the version listing, which is searched from the front. */
  datatype Listed = Listed(version: string, date: int)

  /** What a comparison does: it raises, it returns None, or it returns a number. */
  datatype Comparison = Raised | Incomparable | Ordered(order: int)

  function Sign(a: int, b: int): int {
    if a > b then 1 else if a < b then -1 else 0
  }

  function CompareMain(v: Parsed, w: Parsed): int {
    if v.major != w.major then Sign(v.major, w.major)
    else if v.minor != w.minor then Sign(v.minor, w.minor)
    else Sign(v.patch, w.patch)
  }

  /** The identifier expression: pre or rc followed by a number. */
  function MatchIdentifier(id: string): Option<(bool, nat)> {
    if StartsWith(id, "pre") && Digits(id[3..]) then Some((false, ParseNat(id[3..])))
    else if StartsWith(id, "rc") && Digits(id[2..]) then Some((true, ParseNat(id[2..])))
    else None
  }

  function CompareIdentifiers(id1: string, id2: string): Comparison {
    if id1 == id2 then Ordered(0)
    else
      match (MatchIdentifier(id1), MatchIdentifier(id2))
      case (Some((rc1, n1)), Some((rc2, n2))) =>
        if rc1 != rc2 then Ordered(if rc1 then 1 else -1) else Ordered((n1 as int) - (n2 as int))
      case _ => Raised
  }

  function PublishDate(listing: seq<Listed>, version: string): Option<int> {
    if listing == [] then None
    else if listing[0].version == version then Some(listing[0].date)
    else PublishDate(listing[1..], version)
  }

  function CompareByDate(listing: seq<Listed>, v1: string, v2: string): Comparison {
    match (PublishDate(listing, v1), PublishDate(listing, v2))
    case (Some(d1), Some(d2)) => Ordered(Sign(d1, d2))
    case _ => Incomparable
  }

  predicate OldSnapshotVersion(v: Parsed) {
    v.kind == Snapshot && v.system == Old
  }

  /** The comparison of two parsed versions with different texts. */
  function CompareParsed(listing: seq<Listed>, p1: Parsed, p2: Parsed): Comparison
    requires Printable(p1) && Printable(p2)
  {
    if OldSnapshotVersion(p1) || OldSnapshotVersion(p2) then CompareByDate(listing, p1.text, p2.text)
    else if CompareMain(p1, p2) != 0 then Ordered(CompareMain(p1, p2))
    else if p1.kind == Release && p2.kind == Prerelease then Ordered(1)
    else if p1.kind == Prerelease && p2.kind == Release then Ordered(-1)
    else if p1.kind == Prerelease && p2.kind == Prerelease then CompareIdentifiers(p1.suffix.value, p2.suffix.value)
    else CompareByDate(listing, p1.text, p2.text)
  }

  /** Only the second version is tested for being unparsable; a field of the first is then read anyway. */
  function CompareVersions(listing: seq<Listed>, v1: string, v2: string): Comparison {
    if v1 == v2 then Ordered(0)
    else
      match (ParseVersion(v1), ParseVersion(v2))
      case (_, None) => Incomparable
      case (None, Some(_)) => Raised
      case (Some(p1), Some(p2)) =>
        (ParsedIsPrintable(v1); ParsedIsPrintable(v2); CompareParsed(listing, p1, p2))
  }

  /* ---- publish dates ---- */

  /** The version's first entry in the listing is the i-th, with this date. */
  predicate ListedFirst(listing: seq<Listed>, i: int, v: string, date: int) {
    0 <= i < |listing| && listing[i] == Listed(v, date) && forall j | 0 <= j < i :: listing[j].version != v
  }

  /** A version's publish date is that of its first entry. */
  lemma {:induction false} DateIsFirstListed(listing: seq<Listed>, v: string, date: int)
    ensures PublishDate(listing, v) == Some(date) <==> exists i :: ListedFirst(listing, i, v, date)
    ensures PublishDate(listing, v).None? <==> forall i | 0 <= i < |listing| :: listing[i].version != v
  {
    if listing != [] {
      var rest := listing[1..];
      DateIsFirstListed(rest, v, date);
      if listing[0].version == v {
        assert ListedFirst(listing, 0, v, listing[0].date);
      } else {
        if i :| ListedFirst(rest, i, v, date) {
          assert ListedFirst(listing, i + 1, v, date) by {
            assert forall j | 1 <= j <= i :: listing[j] == rest[j - 1];
          }
        }
        if i :| ListedFirst(listing, i, v, date) {
          assert ListedFirst(rest, i - 1, v, date) by {
            assert forall j | 0 <= j < i - 1 :: rest[j] == listing[j + 1];
          }
        }
        assert forall i | 0 <= i < |rest| :: rest[i] == listing[i + 1];
      }
    }
  }

  /** An old snapshot against anything else, both listed: the one published later comes later. */
  lemma LaterListedComesLater(listing: seq<Listed>, v: string, w: string, i: int, j: int, d: int, e: int)
    requires v != w && ParseVersion(v).Some? && ParseVersion(w).Some?
    requires OldSnapshotVersion(ParseVersion(v).value) || OldSnapshotVersion(ParseVersion(w).value)
    requires ListedFirst(listing, i, v, d) && ListedFirst(listing, j, w, e)
    ensures CompareVersions(listing, v, w) == Ordered(if d > e then 1 else if d < e then -1 else 0)
  {
    DateIsFirstListed(listing, v, d);
    DateIsFirstListed(listing, w, e);
    ParsedIsPrintable(v);
    ParsedIsPrintable(w);
  }

  lemma SnapshotTexts() returns (later: string, earlier: string)
    ensures later == "25w37a" && earlier == "25w36a" && later != earlier
    ensures ParseVersion(later).Some? && OldSnapshotVersion(ParseVersion(later).value)
    ensures ParseVersion(earlier).Some? && OldSnapshotVersion(ParseVersion(earlier).value)
  {
    later, earlier := "25w37a", "25w36a";
    var g, h := Groups("25", "37", None, None, Some("a")), Groups("25", "36", None, None, Some("a"));
    assert later == Layout(OldSnapshot, g) && earlier == Layout(OldSnapshot, h);
    ParseReadsAnyFormat(OldSnapshot, later, g);
    ParseReadsAnyFormat(OldSnapshot, earlier, h);
    assert later[4] != earlier[4];
  }

  /** Such a pair: 25w37a, listed on the tenth of a month, comes after 25w36a, listed on the third. */
  lemma SnapshotsByDate() returns (listing: seq<Listed>)
    ensures listing == [Listed("25w37a", 20250910), Listed("25w36a", 20250903)]
    ensures CompareVersions(listing, "25w37a", "25w36a") == Ordered(1)
  {
    var later, earlier := SnapshotTexts();
    listing := [Listed(later, 20250910), Listed(earlier, 20250903)];
    LaterListedComesLater(listing, later, earlier, 0, 1, 20250910, 20250903);
  }

  /* ---- prerelease identifiers ---- */

  /** Whole identifiers are ordered by stage and then by number; the comparison of versions passes bare stages. */
  lemma IdentifiersAreOrdered(a: nat, b: nat)
    ensures CompareIdentifiers("rc" + Decimal(a), "pre" + Decimal(b)) == Ordered(1)
    ensures CompareIdentifiers("pre" + Decimal(b), "rc" + Decimal(a)) == Ordered(-1)
    ensures CompareIdentifiers("pre" + Decimal(a), "pre" + Decimal(b)) == Ordered((a as int) - (b as int))
    ensures CompareIdentifiers("rc" + Decimal(a), "rc" + Decimal(b)) == Ordered((a as int) - (b as int))
  {
    ReadIdentifier("pre", a); ReadIdentifier("pre", b); ReadIdentifier("rc", a); ReadIdentifier("rc", b);
    assert ("rc" + Decimal(a))[0] == 'r' && ("pre" + Decimal(b))[0] == 'p';
  }

  lemma ReadIdentifier(stage: string, n: nat)
    requires PreOrRc(Some(stage))
    ensures MatchIdentifier(stage + Decimal(n)) == Some((stage == "rc", n))
  {
    ParseOfDecimal(n);
    var id := stage + Decimal(n);
    assert id[|stage|..] == Decimal(n) && id[..|stage|] == stage;
    if stage == "rc" { assert id[0] == 'r'; }
  }

  /* ---- laws for every listing ---- */

  /** The two versions are prereleases of one main version. */
  predicate SiblingPrereleases(p1: Parsed, p2: Parsed) {
    && p1.kind == Prerelease && p2.kind == Prerelease
    && p1.major == p2.major && p1.minor == p2.minor && p1.patch == p2.patch
  }

  /** The build number never takes part: sibling prereleases tie, or the comparison raises. */
  lemma SiblingPrereleasesAreNotOrdered(listing: seq<Listed>, v1: string, v2: string)
    requires ParseVersion(v1).Some? && ParseVersion(v2).Some?
    requires SiblingPrereleases(ParseVersion(v1).value, ParseVersion(v2).value)
    ensures CompareVersions(listing, v1, v2) ==
            if v1 == v2 || ParseVersion(v1).value.suffix == ParseVersion(v2).value.suffix then Ordered(0) else Raised
  {
    ParsedIsPrintable(v1);
    ParsedIsPrintable(v2);
  }

  /** The comparison raises exactly for an unparsable first version against a parsable one, and for a pre against
      an rc of one main version. */
  lemma RaisesExactlyWhen(listing: seq<Listed>, v1: string, v2: string)
    ensures CompareVersions(listing, v1, v2) == Raised <==>
            && v1 != v2 && ParseVersion(v2).Some?
            && (|| ParseVersion(v1).None?
                || (&& SiblingPrereleases(ParseVersion(v1).value, ParseVersion(v2).value)
                    && ParseVersion(v1).value.suffix != ParseVersion(v2).value.suffix))
  {
    if v1 != v2 && ParseVersion(v1).Some? && ParseVersion(v2).Some?
       && SiblingPrereleases(ParseVersion(v1).value, ParseVersion(v2).value) {
      SiblingPrereleasesAreNotOrdered(listing, v1, v2);
    }
  }

  lemma SwappingParsedNegates(listing: seq<Listed>, p1: Parsed, p2: Parsed)
    requires Printable(p1) && Printable(p2) && CompareParsed(listing, p1, p2).Ordered?
    ensures CompareParsed(listing, p2, p1) == Ordered(-CompareParsed(listing, p1, p2).order)
    ensures CompareParsed(listing, p1, p2).order in {-1, 0, 1}
  {
  }

  /** Swapping the arguments of a comparison that answers negates the answer, which is always a sign. */
  lemma SwappingNegates(listing: seq<Listed>, v1: string, v2: string)
    requires CompareVersions(listing, v1, v2).Ordered?
    ensures CompareVersions(listing, v2, v1) == Ordered(-CompareVersions(listing, v1, v2).order)
    ensures CompareVersions(listing, v1, v2).order in {-1, 0, 1}
  {
    if v1 != v2 {
      ParsedIsPrintable(v1);
      ParsedIsPrintable(v2);
      SwappingParsedNegates(listing, ParseVersion(v1).value, ParseVersion(v2).value);
    }
  }

  /** The lexicographic order on (major, minor, patch). */
  predicate MainLess(v: Parsed, w: Parsed) {
    || v.major < w.major
    || (v.major == w.major && (v.minor < w.minor || (v.minor == w.minor && v.patch < w.patch)))
  }

  /** The answer does not put the later numbers first. */
  predicate FollowsNumbers(p1: Parsed, p2: Parsed, answer: Comparison) {
    answer.Ordered? ==>
      && (answer.order <= 0 ==> !MainLess(p2, p1))
      && (MainLess(p1, p2) ==> answer.order == -1)
  }

  lemma ParsedFollowsNumbers(listing: seq<Listed>, p1: Parsed, p2: Parsed)
    requires Printable(p1) && Printable(p2) && !OldSnapshotVersion(p1) && !OldSnapshotVersion(p2)
    ensures FollowsNumbers(p1, p2, CompareParsed(listing, p1, p2))
  {
  }

  /** Apart from old snapshots, an answer never contradicts the numbers. */
  lemma AnswerFollowsNumbers(listing: seq<Listed>, v1: string, v2: string)
    requires ParseVersion(v1).Some? && ParseVersion(v2).Some?
    requires !OldSnapshotVersion(ParseVersion(v1).value) && !OldSnapshotVersion(ParseVersion(v2).value)
    ensures FollowsNumbers(ParseVersion(v1).value, ParseVersion(v2).value, CompareVersions(listing, v1, v2))
  {
    ParsedIsPrintable(v1);
    ParsedIsPrintable(v2);
    if v1 != v2 {
      ParsedFollowsNumbers(listing, ParseVersion(v1).value, ParseVersion(v2).value);
    }
  }

  /** What the answer against a release says. */
  predicate AnswersAgainstRelease(v: Parsed, release: Parsed, answer: Comparison) {
    && (MainLess(release, v) ==> answer == Ordered(1))
    && (MainLess(v, release) || (CompareMain(v, release) == 0 && v.kind == Prerelease) ==> answer == Ordered(-1))
    && (v.text == release.text ==> answer == Ordered(0))
  }

  lemma ParsedAgainstRelease(listing: seq<Listed>, v: Parsed, release: Parsed)
    requires Printable(v) && Printable(release) && !OldSnapshotVersion(v) && release.kind == Release && v.text != release.text
    ensures AnswersAgainstRelease(v, release, CompareParsed(listing, v, release))
  {
  }

  /** A version with higher numbers than a release comes after it, one with lower numbers and a prerelease of it come
      before it, whatever the listing. */
  lemma AgainstRelease(listing: seq<Listed>, v: string, release: string)
    requires ParseVersion(v).Some? && !OldSnapshotVersion(ParseVersion(v).value)
    requires ParseVersion(release).Some? && ParseVersion(release).value.kind == Release
    ensures AnswersAgainstRelease(ParseVersion(v).value, ParseVersion(release).value, CompareVersions(listing, v, release))
  {
    ParsedIsPrintable(v);
    ParsedIsPrintable(release);
    if v != release {
      ParsedAgainstRelease(listing, ParseVersion(v).value, ParseVersion(release).value);
    }
  }

  /** Of two versions that are no snapshots of the old system the higher numbers always come later, whatever the
      listing; with equal numbers a snapshot of the new system is placed by date. */
  lemma NumbersDecide(listing: seq<Listed>, v: string, w: string)
    requires ParseVersion(v).Some? && ParseVersion(w).Some? && v != w
    requires var p, q := ParseVersion(v).value, ParseVersion(w).value;
             (p.kind != Snapshot || p.system == New) && (q.kind != Snapshot || q.system == New)
    ensures var p, q := ParseVersion(v).value, ParseVersion(w).value;
            && (MainLess(p, q) ==> CompareVersions(listing, v, w) == Ordered(-1))
            && (MainLess(q, p) ==> CompareVersions(listing, v, w) == Ordered(1))
            && (!MainLess(p, q) && !MainLess(q, p) && (p.kind == Snapshot || q.kind == Snapshot) ==>
                  CompareVersions(listing, v, w) == CompareByDate(listing, v, w))
  {
    ParsedIsPrintable(v);
    ParsedIsPrintable(w);
  }

  /* ---- agreement with the publish dates ---- */

  predicate Known(listing: seq<Listed>, v: string) {
    PublishDate(listing, v).Some? && ParseVersion(v).Some?
  }

  /** The comparison answers as the publish dates do. */
  predicate PairAgrees(listing: seq<Listed>, v: string, w: string)
    requires Known(listing, v) && Known(listing, w)
  {
    CompareVersions(listing, v, w) == Ordered(Sign(PublishDate(listing, v).value, PublishDate(listing, w).value))
  }

  ghost predicate AgreesWithDates(listing: seq<Listed>) {
    forall v, w | Known(listing, v) && Known(listing, w) :: PairAgrees(listing, v, w)
  }

  /** Dates rise with the numbers, a release follows its prereleases, and two texts that are prereleases of one
      main version can only be two names for the same stage and date. */
  predicate PairRegular(listing: seq<Listed>, v: string, w: string)
    requires Known(listing, v) && Known(listing, w)
  {
    var p, d := ParseVersion(v).value, PublishDate(listing, v).value;
    var q, e := ParseVersion(w).value, PublishDate(listing, w).value;
    !OldSnapshotVersion(p) && !OldSnapshotVersion(q) ==>
      && (MainLess(p, q) ==> d < e)
      && (CompareMain(p, q) == 0 && p.kind == Prerelease && q.kind == Release ==> d < e)
      && (SiblingPrereleases(p, q) && v != w ==> p.suffix == q.suffix && d == e)
  }

  ghost predicate Regular(listing: seq<Listed>) {
    forall v, w | Known(listing, v) && Known(listing, w) :: PairRegular(listing, v, w)
  }

  lemma PairAgreesIffRegular(listing: seq<Listed>, v: string, w: string)
    requires Known(listing, v) && Known(listing, w)
    ensures PairAgrees(listing, v, w) && PairAgrees(listing, w, v) <==>
            PairRegular(listing, v, w) && PairRegular(listing, w, v)
  {
    ParsedIsPrintable(v);
    ParsedIsPrintable(w);
    if SiblingPrereleases(ParseVersion(v).value, ParseVersion(w).value) {
      SiblingPrereleasesAreNotOrdered(listing, v, w);
      SiblingPrereleasesAreNotOrdered(listing, w, v);
    }
  }

  /** A listing is ordered by the comparison as by its dates exactly when it is regular. */
  lemma AgreesExactlyOnRegularListings(listing: seq<Listed>)
    ensures AgreesWithDates(listing) <==> Regular(listing)
  {
    forall v, w | Known(listing, v) && Known(listing, w)
      ensures PairAgrees(listing, v, w) && PairAgrees(listing, w, v) <==>
              PairRegular(listing, v, w) && PairRegular(listing, w, v)
    {
      PairAgreesIffRegular(listing, v, w);
    }
  }

  /** `v` is at most `w` by the comparison. */
  predicate AtMost(listing: seq<Listed>, v: string, w: string) {
    CompareVersions(listing, v, w).Ordered? && CompareVersions(listing, v, w).order <= 0
  }

  lemma AtMostMeansNotLater(listing: seq<Listed>, v: string, w: string)
    requires Regular(listing) && Known(listing, v) && Known(listing, w)
    ensures AtMost(listing, v, w) <==> PublishDate(listing, v).value <= PublishDate(listing, w).value
  {
    AgreesExactlyOnRegularListings(listing);
    assert PairAgrees(listing, v, w);
  }

  /** On a regular listing the comparison is a total preorder of the known versions, old snapshots included. */
  lemma TotalPreorderOnRegularListings(listing: seq<Listed>, u: string, v: string, w: string)
    requires Regular(listing) && Known(listing, u) && Known(listing, v) && Known(listing, w)
    ensures AtMost(listing, u, v) || AtMost(listing, v, u)
    ensures AtMost(listing, u, v) && AtMost(listing, v, w) ==> AtMost(listing, u, w)
  {
    AtMostMeansNotLater(listing, u, v);
    AtMostMeansNotLater(listing, v, u);
    AtMostMeansNotLater(listing, v, w);
    AtMostMeansNotLater(listing, u, w);
  }

  /* ---- where the documented answer fails ---- */

  function PrereleaseText(major: string, minor: string, suffix: string, build: string): string {
    major + "." + minor + "-" + suffix + build
  }

  lemma ReadPrerelease(major: string, minor: string, suffix: string, build: string)
    requires ShortDigits(major) && ShortDigits(minor) && PreOrRc(Some(suffix)) && Digits(build)
    ensures var s := PrereleaseText(major, minor, suffix, build);
            ParseVersion(s) == Some(Parsed(s, Prerelease, Old, ParseNat(major), ParseNat(minor), 0,
                                           Number(ParseNat(build)), Some(suffix)))
  {
    var g := Groups(major, minor, None, Some(suffix), Some(build));
    var s := PrereleaseText(major, minor, suffix, build);
    assert s == Layout(OldPrerelease, g) by {
      assert NumberText(g) == major + "." + minor;
    }
    ParseReadsAnyFormat(OldPrerelease, s, g);
  }

  function ReleaseText(major: nat, minor: nat): string {
    Decimal(major) + "." + Decimal(minor)
  }

  lemma ReadRelease(major: nat, minor: nat)
    requires major < 100 && minor < 100
    ensures var s := ReleaseText(major, minor);
            ParseVersion(s) == Some(Parsed(s, Release, Old, major, minor, 0, Number(0), None))
  {
    TwoDigits(major); TwoDigits(minor);
    ParseOfDecimal(major); ParseOfDecimal(minor);
    var g := Groups(Decimal(major), Decimal(minor), None, None, None);
    var s := ReleaseText(major, minor);
    assert s == Layout(OldRelease, g) by {
      assert NumberText(g) == s;
    }
    ParseReadsAnyFormat(OldRelease, s, g);
  }

  /** A text that does not begin with a digit is no version in any format. */
  lemma WordIsNoVersion(s: string)
    requires s == "" || !IsDigit(s[0])
    ensures ParseVersion(s).None?
  {
    if ParseVersion(s).Some? {
      var f, g := FirstMatchSound(TRIED, s);
      LayoutBeginsWithDigit(f, g);
      assert false;
    }
  }

  lemma LayoutBeginsWithDigit(f: Format, g: Groups)
    requires Admits(f, g)
    ensures Layout(f, g) != "" && IsDigit(Layout(f, g)[0])
  {
    assert g.major != "" && IsDigit(g.major[0]);
    assert Layout(f, g)[0] == g.major[0];
  }

  /** For all main versions X.Y and builds N, M: "X.Y-preN" and "X.Y-preM" tie, whatever N and M, and "X.Y-preN"
      against "X.Y-rcM" raises; so "1.20-pre1" is not below "1.20-pre2". */
  lemma PrereleasesAreNotOrdered(listing: seq<Listed>, major: string, minor: string, s: string, n: string, s': string, m: string)
    requires ShortDigits(major) && ShortDigits(minor) && Digits(n) && Digits(m)
    requires PreOrRc(Some(s)) && PreOrRc(Some(s'))
    ensures CompareVersions(listing, PrereleaseText(major, minor, s, n), PrereleaseText(major, minor, s', m)) ==
            if s == s' then Ordered(0) else Raised
  {
    ReadPrerelease(major, minor, s, n);
    ReadPrerelease(major, minor, s', m);
    SiblingPrereleasesAreNotOrdered(listing, PrereleaseText(major, minor, s, n), PrereleaseText(major, minor, s', m));
  }

  /** "1.20-pre1" ties with "1.20-pre2", and against "1.20-rc1" the comparison raises. */
  lemma DocumentedOrderFails(listing: seq<Listed>)
    ensures exists pre1, pre2, rc1 ::
              && pre1 == PrereleaseText("1", "20", "pre", "1") && pre2 == PrereleaseText("1", "20", "pre", "2")
              && rc1 == PrereleaseText("1", "20", "rc", "1")
              && CompareVersions(listing, pre1, pre2) == Ordered(0) && CompareVersions(listing, pre1, rc1) == Raised
  {
    PrereleasesAreNotOrdered(listing, "1", "20", "pre", "1", "pre", "2");
    PrereleasesAreNotOrdered(listing, "1", "20", "pre", "1", "rc", "1");
  }

  /** None for an invalid version, as documented, is the answer exactly when the second one is invalid. */
  lemma InvalidIsNoneExactlyWhen(listing: seq<Listed>, v1: string, v2: string)
    requires v1 != v2 && (ParseVersion(v1).None? || ParseVersion(v2).None?)
    ensures CompareVersions(listing, v1, v2) == Incomparable <==> ParseVersion(v2).None?
  {
  }

  /** Neither the numbers nor the kinds order the two versions. */
  predicate LeftToDates(p1: Parsed, p2: Parsed) {
    || OldSnapshotVersion(p1) || OldSnapshotVersion(p2)
    || (!MainLess(p1, p2) && !MainLess(p2, p1) && (p1.kind == Snapshot || p2.kind == Snapshot || p1.kind == p2.kind == Release))
  }

  lemma ParsedIsNoneExactlyWhen(listing: seq<Listed>, p1: Parsed, p2: Parsed)
    requires Printable(p1) && Printable(p2)
    ensures CompareParsed(listing, p1, p2) == Incomparable <==>
            LeftToDates(p1, p2) && (PublishDate(listing, p1.text).None? || PublishDate(listing, p2.text).None?)
  {
  }

  /** None is also the answer for valid versions: exactly when only the dates could order them and one is not
      listed. */
  lemma NoneExactlyWhen(listing: seq<Listed>, v1: string, v2: string)
    ensures CompareVersions(listing, v1, v2) == Incomparable <==>
            && v1 != v2
            && (|| ParseVersion(v2).None?
                || (&& ParseVersion(v1).Some? && LeftToDates(ParseVersion(v1).value, ParseVersion(v2).value)
                    && (PublishDate(listing, v1).None? || PublishDate(listing, v2).None?)))
  {
    if v1 != v2 && ParseVersion(v1).Some? && ParseVersion(v2).Some? {
      ParsedIsPrintable(v1);
      ParsedIsPrintable(v2);
      ParsedIsNoneExactlyWhen(listing, ParseVersion(v1).value, ParseVersion(v2).value);
    }
  }

  /** A text that does not begin with a digit, such as the empty one, is answered by None on the right, but raises on
      the left. */
  lemma WordRaisesOnTheLeft(listing: seq<Listed>, word: string, v: string)
    requires (word == "" || !IsDigit(word[0])) && ParseVersion(v).Some?
    ensures CompareVersions(listing, word, v) == Raised && CompareVersions(listing, v, word) == Incomparable
  {
    WordIsNoVersion(word);
  }

  /** Such a pair: "latest" against 1.20 raises, 1.20 against "latest" gives None. */
  lemma LatestRaisesOnTheLeft(listing: seq<Listed>) returns (word: string, v: string)
    ensures word == "latest" && v == ReleaseText(1, 20)
    ensures CompareVersions(listing, word, v) == Raised && CompareVersions(listing, v, word) == Incomparable
  {
    word, v := "latest", ReleaseText(1, 20);
    ReadRelease(1, 20);
    WordRaisesOnTheLeft(listing, word, v);
  }
}
