/**
 * `utils.IsSemVer`: the anchored regular expression of Semantic Versioning
 * 2.0.0 (the one published on semver.org), written out as a recogniser, and
 * the grammar it recognises as a datatype of version parts with a renderer.
 */
module Utils {
  import opened Wrappers
  import opened Strs

  predicate IsDigit(c: char) { '0' <= c <= '9' }

  predicate IsLetter(c: char) { 'a' <= c <= 'z' || 'A' <= c <= 'Z' }

  /** `[0-9a-zA-Z-]` */
  predicate IsIdentChar(c: char) { IsDigit(c) || IsLetter(c) || c == '-' }

  predicate AllDigits(s: string) { forall i :: 0 <= i < |s| ==> IsDigit(s[i]) }

  predicate AllIdentChars(s: string) { forall i :: 0 <= i < |s| ==> IsIdentChar(s[i]) }

  /** `0|[1-9]\d*`: major, minor and patch (item 2), numeric pre-release identifiers (item 9). */
  predicate IsNumericIdentifier(s: string) {
    s == "0" || (|s| >= 1 && '1' <= s[0] <= '9' && AllDigits(s))
  }

  /** `0|[1-9]\d*|\d*[a-zA-Z-][0-9a-zA-Z-]*`: one dot-separated pre-release identifier (item 9). */
  predicate IsPreReleaseIdentifier(s: string) {
    IsNumericIdentifier(s) || (|s| >= 1 && AllIdentChars(s) && !AllDigits(s))
  }

  /** `[0-9a-zA-Z-]+`: one dot-separated build-metadata identifier (item 10). */
  predicate IsBuildIdentifier(s: string) {
    |s| >= 1 && AllIdentChars(s)
  }

  predicate AllPreRelease(ids: seq<string>) {
    forall i :: 0 <= i < |ids| ==> IsPreReleaseIdentifier(ids[i])
  }

  predicate AllBuild(ids: seq<string>) {
    forall i :: 0 <= i < |ids| ==> IsBuildIdentifier(ids[i])
  }

  /** The version core `major.minor.patch`. */
  predicate IsVersionCore(s: string) {
    var parts := Split(s, ".");
    |parts| == 3 && IsNumericIdentifier(parts[0]) && IsNumericIdentifier(parts[1])
    && IsNumericIdentifier(parts[2])
  }

  /** The text before the build metadata: the core, then `-` and pre-release identifiers if present. */
  predicate IsCoreAndPreRelease(s: string) {
    match Index(s, "-")
    case None => IsVersionCore(s)
    case Some(i) => IsVersionCore(s[..i]) && AllPreRelease(Split(s[i + 1..], "."))
  }

  /**
   * `utils.IsSemVer`. No character of the core or the pre-release can be
   * `+`, so the first `+` starts the build metadata; no character of the
   * core can be `-`, so the first `-` starts the pre-release.
   */
  predicate IsSemVer(s: string) {
    match Index(s, "+")
    case None => IsCoreAndPreRelease(s)
    case Some(i) => IsCoreAndPreRelease(s[..i]) && AllBuild(Split(s[i + 1..], "."))
  }

  /** A semantic version taken apart; empty `pre` / `build` mean the part is absent. */
  datatype SemVerParts = SemVerParts(major: string, minor: string, patch: string,
                                     pre: seq<string>, build: seq<string>)

  predicate ValidParts(p: SemVerParts) {
    IsNumericIdentifier(p.major) && IsNumericIdentifier(p.minor) && IsNumericIdentifier(p.patch)
    && AllPreRelease(p.pre) && AllBuild(p.build)
  }

  function RenderCore(p: SemVerParts): string {
    p.major + "." + p.minor + "." + p.patch
  }

  function RenderPre(p: SemVerParts): string {
    if p.pre == [] then "" else "-" + Join(p.pre, ".")
  }

  function RenderBuild(p: SemVerParts): string {
    if p.build == [] then "" else "+" + Join(p.build, ".")
  }

  /** The text a version's parts stand for. */
  function Render(p: SemVerParts): string {
    RenderCore(p) + RenderPre(p) + RenderBuild(p)
  }

  // ---- helper facts about characters that do not occur ----

  lemma CharNotInJoin(parts: seq<string>, sep: string, c: char)
    requires c !in sep
    requires forall i :: 0 <= i < |parts| ==> c !in parts[i]
    ensures c !in Join(parts, sep)
  {
    if |parts| > 1 {
      CharNotInJoin(parts[1..], sep, c);
    }
  }

  lemma IndexOfAbsentChar(s: string, c: char)
    requires c !in s
    ensures Index(s, [c]).None?
  {
    CharSeparatedCleanly(s, c);
    NoOccurrenceInCleanPart(s, [c]);
  }

  lemma IndexOfCharAfter(a: string, c: char, b: string)
    requires c !in a
    ensures Index(a + [c] + b, [c]) == Some(|a|)
  {
    CharSeparatedCleanly(a, c);
    FirstIndexAfterCleanPart(a, [c], b);
  }

  lemma SplitJoinChar(parts: seq<string>, c: char)
    requires |parts| >= 1
    requires forall i :: 0 <= i < |parts| ==> c !in parts[i]
    ensures Split(Join(parts, [c]), [c]) == parts
  {
    forall i | 0 <= i < |parts| ensures SeparatedCleanly(parts[i], [c]) {
      CharSeparatedCleanly(parts[i], c);
    }
    SplitJoin(parts, [c]);
  }

  lemma IdentHasNo(s: string, c: char)
    requires AllIdentChars(s) && !IsIdentChar(c)
    ensures c !in s
  {
  }

  lemma NumericIsIdent(s: string)
    requires IsNumericIdentifier(s)
    ensures AllIdentChars(s)
  {
  }

  // ---- the recogniser accepts exactly the rendered valid parts ----

  lemma CoreAccepted(p: SemVerParts)
    requires ValidParts(p)
    ensures IsVersionCore(RenderCore(p))
    ensures '-' !in RenderCore(p) && '+' !in RenderCore(p)
  {
    CoreSplits(p);
    NoCharInCore(p, '-');
    NoCharInCore(p, '+');
  }

  /** A numeric identifier holds digits only. */
  lemma NumericLacks(s: string, c: char)
    requires IsNumericIdentifier(s) && !IsDigit(c)
    ensures c !in s
  {
    if s == "0" {
      assert s[0] != c;
    }
  }

  lemma NoCharInCore(p: SemVerParts, c: char)
    requires ValidParts(p) && !IsDigit(c) && c != '.'
    ensures c !in RenderCore(p)
  {
    NumericLacks(p.major, c);
    NumericLacks(p.minor, c);
    NumericLacks(p.patch, c);
  }

  lemma CoreSplits(p: SemVerParts)
    requires ValidParts(p)
    ensures Split(RenderCore(p), ".") == [p.major, p.minor, p.patch]
  {
    NumericLacks(p.major, '.');
    NumericLacks(p.minor, '.');
    NumericLacks(p.patch, '.');
    var parts := [p.major, p.minor, p.patch];
    JoinThree(p.major, p.minor, p.patch, ".");
    SplitJoinChar(parts, '.');
  }

  lemma IdentsJoinedHaveNoPlus(ids: seq<string>)
    requires forall i :: 0 <= i < |ids| ==> AllIdentChars(ids[i])
    ensures '+' !in Join(ids, ".")
  {
    forall i | 0 <= i < |ids| ensures '+' !in ids[i] {
      IdentHasNo(ids[i], '+');
    }
    CharNotInJoin(ids, ".", '+');
  }

  lemma SplitJoinIdents(ids: seq<string>)
    requires |ids| >= 1
    requires forall i :: 0 <= i < |ids| ==> AllIdentChars(ids[i])
    ensures Split(Join(ids, "."), ".") == ids
  {
    forall i | 0 <= i < |ids| ensures '.' !in ids[i] {
      IdentHasNo(ids[i], '.');
    }
    SplitJoinChar(ids, '.');
  }

  lemma PreReleaseIdent(ids: seq<string>)
    requires AllPreRelease(ids)
    ensures forall i :: 0 <= i < |ids| ==> AllIdentChars(ids[i])
  {
    forall i | 0 <= i < |ids| ensures AllIdentChars(ids[i]) {
      if IsNumericIdentifier(ids[i]) { NumericIsIdent(ids[i]); }
    }
  }

  lemma CoreAndPreAccepted(p: SemVerParts)
    requires ValidParts(p)
    ensures IsCoreAndPreRelease(RenderCore(p) + RenderPre(p))
    ensures '+' !in RenderCore(p) + RenderPre(p)
  {
    CoreAccepted(p);
    var core := RenderCore(p);
    PreReleaseIdent(p.pre);
    IdentsJoinedHaveNoPlus(p.pre);
    if p.pre == [] {
      assert core + RenderPre(p) == core;
      IndexOfAbsentChar(core, '-');
    } else {
      var tail := Join(p.pre, ".");
      assert core + RenderPre(p) == core + "-" + tail;
      IndexOfCharAfter(core, '-', tail);
      var s := core + "-" + tail;
      assert s[..|core|] == core;
      assert s[|core| + 1..] == tail;
      SplitJoinIdents(p.pre);
    }
  }

  /** Every well-formed semantic version, rendered, is accepted by `IsSemVer`. */
  lemma {:induction false} RenderedIsSemVer(p: SemVerParts)
    requires ValidParts(p)
    ensures IsSemVer(Render(p))
  {
    CoreAndPreAccepted(p);
    var head := RenderCore(p) + RenderPre(p);
    if p.build == [] {
      assert Render(p) == head;
      IndexOfAbsentChar(head, '+');
    } else {
      var tail := Join(p.build, ".");
      assert Render(p) == head + "+" + tail;
      IndexOfCharAfter(head, '+', tail);
      var s := head + "+" + tail;
      assert s[..|head|] == head;
      assert s[|head| + 1..] == tail;
      SplitJoinIdents(p.build);
    }
  }

  lemma JoinThree(a: string, b: string, c: string, sep: string)
    ensures Join([a, b, c], sep) == a + sep + b + sep + c
  {
    assert [a, b, c] == [a] + [b, c];
    JoinCons(a, [b, c], sep);
    assert [b, c] == [b] + [c];
    JoinCons(b, [c], sep);
  }

  lemma CoreRoundTrip(core: string)
    requires IsVersionCore(core)
    ensures var cs := Split(core, "."); cs[0] + "." + cs[1] + "." + cs[2] == core
  {
    var cs := Split(core, ".");
    JoinSplit(core, ".");
    assert cs == [cs[0], cs[1], cs[2]];
    JoinThree(cs[0], cs[1], cs[2], ".");
  }

  /** The text before the first `+`, and the identifiers after it. */
  function HeadOf(s: string): string {
    match Index(s, "+") case None => s case Some(i) => s[..i]
  }

  function BuildOf(s: string): seq<string> {
    match Index(s, "+") case None => [] case Some(i) => Split(s[i + 1..], ".")
  }

  /** The text before the first `-`, and the identifiers after it. */
  function CoreOf(head: string): string {
    match Index(head, "-") case None => head case Some(i) => head[..i]
  }

  function PreOf(head: string): seq<string> {
    match Index(head, "-") case None => [] case Some(i) => Split(head[i + 1..], ".")
  }

  /** The parts of a string that `IsSemVer` accepts. */
  function Parse(s: string): (p: SemVerParts)
    requires IsSemVer(s)
  {
    var cs := Split(CoreOf(HeadOf(s)), ".");
    SemVerParts(cs[0], cs[1], cs[2], PreOf(HeadOf(s)), BuildOf(s))
  }

  lemma JoinAfterMark(s: string, i: nat, mark: char)
    requires i < |s| && s[i] == mark
    ensures s[..i] + [mark] + Join(Split(s[i + 1..], "."), ".") == s
  {
    JoinSplit(s[i + 1..], ".");
    assert s == s[..i] + [mark] + s[i + 1..];
  }

  lemma HeadRoundTrip(head: string)
    requires IsCoreAndPreRelease(head)
    ensures var cs := Split(CoreOf(head), ".");
            cs[0] + "." + cs[1] + "." + cs[2] + (if PreOf(head) == [] then "" else "-" + Join(PreOf(head), ".")) == head
  {
    CoreRoundTrip(CoreOf(head));
    match Index(head, "-")
    case None =>
    case Some(i) =>
      assert head[i..i + 1] == "-";
      JoinAfterMark(head, i, '-');
  }

  lemma BuildRoundTrip(s: string)
    ensures HeadOf(s) + (if BuildOf(s) == [] then "" else "+" + Join(BuildOf(s), ".")) == s
  {
    match Index(s, "+")
    case None =>
    case Some(i) =>
      assert s[i..i + 1] == "+";
      JoinAfterMark(s, i, '+');
  }

  /** Every string `IsSemVer` accepts is the rendering of well-formed parts. */
  lemma {:induction false} SemVerIsRendered(s: string)
    requires IsSemVer(s)
    ensures ValidParts(Parse(s)) && Render(Parse(s)) == s
  {
    HeadRoundTrip(HeadOf(s));
    BuildRoundTrip(s);
  }

  /** `IsSemVer` holds exactly of the renderings of well-formed parts. */
  lemma SemVerCharacterisation(s: string)
    ensures IsSemVer(s) <==> exists p :: ValidParts(p) && Render(p) == s
  {
    if IsSemVer(s) {
      SemVerIsRendered(s);
    }
    if exists p :: ValidParts(p) && Render(p) == s {
      var p :| ValidParts(p) && Render(p) == s;
      RenderedIsSemVer(p);
    }
  }

  /** The accepted cases of the source's own test. */
  lemma {:induction false} SemVerAcceptsPlain()
    ensures IsSemVer("1.2.3")
  {
    var plain := SemVerParts("1", "2", "3", [], []);
    RenderedIsSemVer(plain);
    RenderedPlain("1", "2", "3");
    VersionTexts();
  }

  lemma BetaValid()
    ensures ValidParts(SemVerParts("1", "2", "3", ["beta", "1"], ["build", "1"]))
  {
    assert IsPreReleaseIdentifier("beta") by { assert !IsDigit("beta"[0]); }
  }

  /** Two identifiers are written with a dot between them. */
  lemma JoinTwo(x: string, y: string)
    ensures Join([x, y], ".") == x + "." + y
  {
    assert [x, y][1..] == [y];
  }

  lemma RenderedPlain(a: string, b: string, c: string)
    ensures Render(SemVerParts(a, b, c, [], [])) == a + "." + b + "." + c
  {
  }

  /** A version with two pre-release identifiers and two build identifiers, or none. */
  lemma RenderedTwoPre(a: string, b: string, c: string, x: string, y: string)
    ensures Render(SemVerParts(a, b, c, [x, y], [])) == a + "." + b + "." + c + "-" + (x + "." + y)
  {
    JoinTwo(x, y);
  }

  lemma RenderedTwoBuild(a: string, b: string, c: string, x: string, y: string, u: string, v: string)
    ensures Render(SemVerParts(a, b, c, [x, y], [u, v]))
         == a + "." + b + "." + c + "-" + (x + "." + y) + ("+" + (u + "." + v))
  {
    JoinTwo(x, y);
    JoinTwo(u, v);
  }

  /** The test's version strings, written out piece by piece. */
  lemma VersionTexts()
    ensures "1" + "." + "2" + "." + "3" == "1.2.3"
    ensures "1" + "." + "2" + "." + "3" + "-" + ("beta" + "." + "1") == "1.2.3-beta.1"
    ensures "1" + "." + "2" + "." + "3" + "-" + ("beta" + "." + "1") + ("+" + ("build" + "." + "1"))
         == "1.2.3-beta.1+build.1"
  {
  }

  lemma BetaRendered()
    ensures Render(SemVerParts("1", "2", "3", ["beta", "1"], [])) == "1.2.3-beta.1"
  {
    RenderedTwoPre("1", "2", "3", "beta", "1");
    VersionTexts();
  }

  lemma BetaBuildRendered()
    ensures Render(SemVerParts("1", "2", "3", ["beta", "1"], ["build", "1"])) == "1.2.3-beta.1+build.1"
  {
    RenderedTwoBuild("1", "2", "3", "beta", "1", "build", "1");
    VersionTexts();
  }

  lemma {:induction false} SemVerAcceptsPreRelease()
    ensures IsSemVer("1.2.3-beta.1")
  {
    BetaValid();
    BetaRendered();
    RenderedIsSemVer(SemVerParts("1", "2", "3", ["beta", "1"], []));
  }

  lemma {:induction false} SemVerAcceptsBuild()
    ensures IsSemVer("1.2.3-beta.1+build.1")
  {
    BetaValid();
    BetaBuildRendered();
    RenderedIsSemVer(SemVerParts("1", "2", "3", ["beta", "1"], ["build", "1"]));
  }

  /** Every accepted string starts with a digit of the major version. */
  lemma SemVerStartsWithDigit(s: string)
    requires IsSemVer(s)
    ensures |s| > 0 && IsDigit(s[0])
  {
    SemVerIsRendered(s);
    RenderStartsWithMajor(Parse(s));
  }

  lemma RenderStartsWithMajor(p: SemVerParts)
    requires IsNumericIdentifier(p.major)
    ensures |Render(p)| > 0 && Render(p)[0] == p.major[0] && IsDigit(p.major[0])
  {
    assert Render(p) == p.major + ("." + p.minor + "." + p.patch + RenderPre(p) + RenderBuild(p));
  }

  /** The rejected case of the source's own test. */
  lemma SemVerRejectsFoobar()
    ensures !IsSemVer("foobar")
  {
    if IsSemVer("foobar") {
      SemVerStartsWithDigit("foobar");
    }
  }
}
