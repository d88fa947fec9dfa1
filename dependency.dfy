/**
 * `Dependency`: a package name (`github.com/owner/repo`) and the version it
 * is pinned to, with the `gh:` shorthand, name validation and the
 * `name@version` specifier.
 */
module Dependencies {
  import opened Wrappers
  import opened Strs
  import opened Utils
  import opened Versions

  /** `NewDependency(name, version)`: no validation. */
  datatype Dependency = Dependency(name: string, version: Version)

  /** `CanonicalizeDependencyName`: a leading "gh:" becomes "github.com/". */
  function Canonicalize(name: string): (r: string)
    ensures HasPrefix(name, "gh:") ==> r == "github.com/" + name[3..]
    ensures !HasPrefix(name, "gh:") ==> r == name
  {
    if HasPrefix(name, "gh:") then "github.com/" + name[3..] else name
  }

  /** Canonicalising twice is canonicalising once. */
  lemma CanonicalizeIdempotent(name: string)
    ensures Canonicalize(Canonicalize(name)) == Canonicalize(name)
  {
    if HasPrefix(name, "gh:") {
      assert Canonicalize(name)[1] == 'i';
    }
  }

  /** Exactly the names written with the shorthand change when canonicalised. */
  lemma ShorthandIsNotCanonical(name: string)
    ensures Canonicalize(name) == name <==> !HasPrefix(name, "gh:")
  {
    if HasPrefix(name, "gh:") {
      assert Canonicalize(name)[1] == 'i' && name[1] == 'h';
    }
  }

  /** `[\w-\.]`: a letter, digit, underscore, hyphen or dot. */
  predicate IsNameChar(c: char) {
    IsDigit(c) || IsLetter(c) || c == '_' || c == '-' || c == '.'
  }

  /** `[\w-\.]+` */
  predicate IsSegment(s: string) {
    |s| >= 1 && forall i :: 0 <= i < |s| ==> IsNameChar(s[i])
  }

  /** `seg/seg`, cut at the first "/". */
  predicate IsOwnerAndRepo(s: string) {
    match Index(s, "/")
    case None => false
    case Some(i) => IsSegment(s[..i]) && IsSegment(s[i + 1..])
  }

  /** `isValidDependencyName`: `^github\.com\/[\w-\.]+\/[\w-\.]+$`. */
  predicate IsValidDependencyName(name: string) {
    HasPrefix(name, "github.com/") && IsOwnerAndRepo(name[|"github.com/"|..])
  }

  lemma SegmentHasNoSlash(s: string)
    requires IsSegment(s)
    ensures '/' !in s
  {
  }

  lemma OwnerAndRepoOf(o: string, r: string)
    requires IsSegment(o) && IsSegment(r)
    ensures IsOwnerAndRepo(o + "/" + r)
  {
    SegmentHasNoSlash(o);
    assert o + "/" + r == o + ("/" + r);
    IndexShift(o, "/" + r, '/');
    assert Index("/" + r, "/") == Some(0) by {
      IndexIsFirst("/" + r, "/", 0);
    }
    assert (o + "/" + r)[..|o|] == o;
    assert (o + "/" + r)[|o| + 1..] == r;
  }

  /** After `prefix`, an owner and a repository: exactly `prefix` + o + "/" + r with two segments. */
  lemma OwnerAndRepoAfter(prefix: string, s: string)
    ensures HasPrefix(s, prefix) && IsOwnerAndRepo(s[|prefix|..])
        <==> exists o, r :: IsSegment(o) && IsSegment(r) && s == prefix + o + "/" + r
  {
    if HasPrefix(s, prefix) && IsOwnerAndRepo(s[|prefix|..]) {
      var o, r := OwnerAndRepoParts(prefix, s);
    }
    if exists o, r :: IsSegment(o) && IsSegment(r) && s == prefix + o + "/" + r {
      var o, r :| IsSegment(o) && IsSegment(r) && s == prefix + o + "/" + r;
      OwnerAndRepoJoined(prefix, o, r);
    }
  }

  lemma OwnerAndRepoParts(prefix: string, s: string) returns (o: string, r: string)
    requires HasPrefix(s, prefix) && IsOwnerAndRepo(s[|prefix|..])
    ensures IsSegment(o) && IsSegment(r) && s == prefix + o + "/" + r
  {
    var rest := s[|prefix|..];
    var i := Index(rest, "/").value;
    o, r := rest[..i], rest[i + 1..];
    assert rest[i..i + 1] == "/";
    assert rest == o + "/" + r;
    assert s == prefix + rest;
  }

  lemma OwnerAndRepoJoined(prefix: string, o: string, r: string)
    requires IsSegment(o) && IsSegment(r)
    ensures var s := prefix + o + "/" + r; HasPrefix(s, prefix) && IsOwnerAndRepo(s[|prefix|..])
  {
    var s := prefix + o + "/" + r;
    OwnerAndRepoOf(o, r);
    assert s[..|prefix|] == prefix;
    assert s[|prefix|..] == o + "/" + r;
  }

  /** Valid names are exactly "github.com/" + owner + "/" + repo with two non-empty segments. */
  lemma ValidNameCharacterisation(name: string)
    ensures IsValidDependencyName(name)
        <==> exists o, r :: IsSegment(o) && IsSegment(r) && name == "github.com/" + o + "/" + r
  {
    OwnerAndRepoAfter("github.com/", name);
  }

  /** A valid name is already canonical. */
  lemma ValidNameIsCanonical(name: string)
    requires IsValidDependencyName(name)
    ensures Canonicalize(name) == name
  {
    assert name[1] == 'i';
  }

  /**
   * `DependencyFromSpecifiers`. `latest` stands for the packages
   * repository's `GetLatestVersion`, reached through the service locator.
   */
  function DependencyFromSpecifiers(name: string, versionSpecifier: string,
                                    latest: string -> Result<Version>,
                                    isSemVerRange: string -> bool): (r: Result<Dependency>)
    ensures r.Ok? ==> r.value.name == Canonicalize(name)
  {
    var name := Canonicalize(name);
    if !IsValidDependencyName(name) then Err("Invalid dependency name " + name)
    else if versionSpecifier == "" then
      match latest(name)
      case Err(e) => Err(e)
      case Ok(v) =>
        // an exact latest version is stored as a caret range, so that later updates pick up newer versions
        Ok(Dependency(name, if v.kind == SemVerExact then Version(SemVerRange, "^" + v.value) else v))
    else
      match VersionFromSpecifier(versionSpecifier, isSemVerRange)
      case Err(e) => Err(e)
      case Ok(v) => Ok(Dependency(name, v))
  }

  /**
   * The name is validated first; then a non-empty specifier is parsed, and
   * an empty one asks the repository for the latest version, an exact one
   * being widened to a caret range.
   */
  lemma FromSpecifiersContract(name: string, versionSpecifier: string,
                               latest: string -> Result<Version>, isSemVerRange: string -> bool)
    ensures var r := DependencyFromSpecifiers(name, versionSpecifier, latest, isSemVerRange);
            !IsValidDependencyName(Canonicalize(name)) ==> r == Err("Invalid dependency name " + Canonicalize(name))
    ensures var r := DependencyFromSpecifiers(name, versionSpecifier, latest, isSemVerRange);
            r.Ok? ==> IsValidDependencyName(r.value.name)
    ensures var r := DependencyFromSpecifiers(name, versionSpecifier, latest, isSemVerRange);
            IsValidDependencyName(Canonicalize(name)) && versionSpecifier != "" ==>
              match VersionFromSpecifier(versionSpecifier, isSemVerRange)
              case Ok(v) => r == Ok(Dependency(Canonicalize(name), v))
              case Err(e) => r == Err(e)
    ensures var r := DependencyFromSpecifiers(name, versionSpecifier, latest, isSemVerRange);
            IsValidDependencyName(Canonicalize(name)) && versionSpecifier == "" ==>
              match latest(Canonicalize(name))
              case Ok(v) => r.Ok? && (v.kind == SemVerExact ==> r.value.version == Version(SemVerRange, "^" + v.value))
                                  && (v.kind != SemVerExact ==> r.value.version == v)
              case Err(e) => r == Err(e)
  {
  }

  /** The name part of a `name@version` specifier: everything before the first "@". */
  function SpecifierName(specifier: string): string {
    match Index(specifier, "@")
    case None => specifier
    case Some(i) => specifier[..i]
  }

  /** The version part: everything after the first "@", or "" when there is none. */
  function SpecifierVersion(specifier: string): string {
    match Index(specifier, "@")
    case None => ""
    case Some(i) => specifier[i + 1..]
  }

  /** Name and version of a specifier put back together give the specifier. */
  lemma SpecifierParts(specifier: string)
    ensures '@' !in specifier ==> SpecifierName(specifier) == specifier && SpecifierVersion(specifier) == ""
    ensures Index(specifier, "@").Some? ==> specifier == SpecifierName(specifier) + "@" + SpecifierVersion(specifier)
    ensures '@' !in SpecifierName(specifier)
  {
    if '@' !in specifier {
      IndexOfAbsentChar(specifier, '@');
    }
    match Index(specifier, "@")
    case None =>
      forall k | 0 <= k < |specifier| ensures specifier[k] != '@' {
        OccursAtChar(specifier, '@', k);
      }
    case Some(i) =>
      assert specifier[i..i + 1] == "@";
      forall k | 0 <= k < i ensures specifier[k] != '@' {
        OccursAtChar(specifier, '@', k);
      }
  }

  /** `DependencyFromSpecifier`: `strings.SplitN(specifier, "@", 2)`, then `DependencyFromSpecifiers`. */
  function DependencyFromSpecifier(specifier: string, latest: string -> Result<Version>,
                                   isSemVerRange: string -> bool): (r: Result<Dependency>)
    ensures r == DependencyFromSpecifiers(SpecifierName(specifier), SpecifierVersion(specifier), latest, isSemVerRange)
  {
    var parts := match Index(specifier, "@")
      case None => [specifier]
      case Some(i) => [specifier[..i], specifier[i + 1..]];
    var packageName := parts[0];
    var versionSpecifier := if |parts| == 2 then parts[1] else "";
    DependencyFromSpecifiers(packageName, versionSpecifier, latest, isSemVerRange)
  }

  /** A prefix without "@" stays with the name part of a specifier. */
  lemma PrefixedSpecifierParts(p: string, x: string)
    requires '@' !in p
    ensures SpecifierName(p + x) == p + SpecifierName(x)
    ensures SpecifierVersion(p + x) == SpecifierVersion(x)
  {
    IndexShift(p, x, '@');
    assert "@" == ['@'];
    match Index(x, "@")
    case None =>
    case Some(i) =>
      assert (p + x)[..|p| + i] == p + x[..i];
      assert (p + x)[|p| + i + 1..] == x[i + 1..];
  }

  /** The "gh:" shorthand and the full "github.com/" prefix give the same dependency. */
  lemma {:induction false} ShorthandSpecifier(x: string, latest: string -> Result<Version>,
                                              isSemVerRange: string -> bool)
    ensures DependencyFromSpecifier("gh:" + x, latest, isSemVerRange)
         == DependencyFromSpecifier("github.com/" + x, latest, isSemVerRange)
  {
    var y := SpecifierName(x);
    PrefixedSpecifierParts("gh:", x);
    PrefixedSpecifierParts("github.com/", x);
    ShorthandCanonical(y);
    FullNameCanonical(y);
    OnlyCanonicalNameMatters("gh:" + y, "github.com/" + y, SpecifierVersion(x), latest, isSemVerRange);
  }

  lemma ShorthandCanonical(y: string)
    ensures Canonicalize("gh:" + y) == "github.com/" + y
  {
    var p := "gh:";
    assert (p + y)[..|p|] == p && (p + y)[|p|..] == y;
  }

  lemma FullNameCanonical(y: string)
    ensures Canonicalize("github.com/" + y) == "github.com/" + y
  {
    NotPrefixedAt("github.com/", "gh:", y, 1);
  }

  /** A string that starts with `p` does not start with a `q` that differs from `p` at `k`. */
  lemma NotPrefixedAt(p: string, q: string, x: string, k: nat)
    requires k < |p| && k < |q| && p[k] != q[k]
    ensures !HasPrefix(p + x, q)
  {
    assert (p + x)[k] == p[k];
  }

  /** Two names with the same canonical form give the same result. */
  lemma OnlyCanonicalNameMatters(a: string, b: string, versionSpecifier: string,
                                 latest: string -> Result<Version>, isSemVerRange: string -> bool)
    requires Canonicalize(a) == Canonicalize(b)
    ensures DependencyFromSpecifiers(a, versionSpecifier, latest, isSemVerRange)
         == DependencyFromSpecifiers(b, versionSpecifier, latest, isSemVerRange)
  {
  }

  /** `dependency.Equals`. */
  function Equals(d: Dependency, other: Dependency): (r: bool)
    ensures r <==> d == other
  {
    d.name == other.name && Versions.Equals(d.version, other.version)
  }

  /**
   * A dependency with a valid name is rebuilt from its name and its
   * version's specifier (the form the manifest stores) when the version is
   * a branch, tag or commit, or an exact semantic version.
   */
  lemma {:induction false} SpecifiersRoundTrip(d: Dependency, latest: string -> Result<Version>,
                                               isSemVerRange: string -> bool)
    requires IsValidDependencyName(d.name)
    requires IsGitRef(d.version.kind) || (d.version.kind == SemVerExact && IsSemVer(d.version.value))
    ensures DependencyFromSpecifiers(d.name, String(d.version), latest, isSemVerRange) == Ok(d)
  {
    ValidNameIsCanonical(d.name);
    if IsGitRef(d.version.kind) {
      GitRefRoundTrip(d.version, isSemVerRange);
    } else {
      SemVerStartsWithDigit(d.version.value);
      ExactRoundTrip(d.version, isSemVerRange);
    }
  }

  /** `d` is rebuilt from its name and its version's specifier. */
  predicate Restorable(d: Dependency, latest: string -> Result<Version>, isSemVerRange: string -> bool) {
    DependencyFromSpecifiers(d.name, String(d.version), latest, isSemVerRange) == Ok(d)
  }

  /** A name that neither starts "gh:" nor "github.com/" is rejected, whatever the version. */
  lemma ForeignNameRejected(name: string, versionSpecifier: string, latest: string -> Result<Version>,
                            isSemVerRange: string -> bool)
    requires !HasPrefix(name, "gh:") && !HasPrefix(name, "github.com/")
    ensures DependencyFromSpecifiers(name, versionSpecifier, latest, isSemVerRange)
         == Err("Invalid dependency name " + name)
  {
  }
}
