/**
 * `Version`: what a dependency is pinned to — an exact semantic version, a
 * semantic-version range, a branch, a tag or a commit — with the parser of
 * version specifiers and the renderer back to a specifier.
 */
module Versions {
  import opened Wrappers
  import opened Strs
  import opened Utils

  datatype VersionKind = SemVerRange | SemVerExact | Branch | Tag | Commit

  /** The `VersionKind` string constants. */
  function KindName(k: VersionKind): string {
    match k
    case SemVerRange => "Semantic Version Range"
    case SemVerExact => "Semantic Version"
    case Branch => "Branch"
    case Tag => "Tag"
    case Commit => "Commit"
  }

  /** `NewVersion(kind, value)`: no validation. */
  datatype Version = Version(kind: VersionKind, value: string)

  predicate IsGitRef(k: VersionKind) {
    k == Branch || k == Tag || k == Commit
  }

  /**
   * The text `^\d+\.?(\d+)?$` matches: one or more digits, optionally
   * followed by a dot and any number of digits ("1", "1.", "1.2").
   */
  predicate IsSimpleRange(s: string) {
    match Index(s, ".")
    case None => |s| >= 1 && AllDigits(s)
    case Some(i) => i >= 1 && AllDigits(s[..i]) && AllDigits(s[i + 1..])
  }

  /** `getLegibleRange`: "1" becomes "1.x.x" and "1.2" becomes "1.2.x"; other ranges are kept. */
  function GetLegibleRange(s: string): string {
    if IsSimpleRange(s) then
      if Contains(s, ".") then s + ".x" else s + ".x.x"
    else s
  }

  /** `version.String`: a git reference as lower-cased kind, ":" and value; a semantic version as its value. */
  function String(v: Version): (r: string)
    ensures IsGitRef(v.kind) ==> HasSuffix(r, v.value) && |r| > |v.value|
    ensures !IsGitRef(v.kind) ==> r == v.value
  {
    if IsGitRef(v.kind) then ToLower(KindName(v.kind)) + ":" + v.value else v.value
  }

  /**
   * `VersionFromSpecifier`. The checks run in the source's order: an exact
   * semantic version first, then the three prefixes, then the range test
   * (`isSemVerRange`, the unshown `utils.IsSemVerRange`).
   */
  function VersionFromSpecifier(spec: string, isSemVerRange: string -> bool): (r: Result<Version>)
    ensures r.Err? ==> r.error == "Invalid version specifier " + spec
  {
    if IsSemVer(spec) then Ok(Version(SemVerExact, spec))
    else if HasPrefix(spec, "branch:") then Ok(Version(Branch, TrimPrefix(spec, "branch:")))
    else if HasPrefix(spec, "tag:") then Ok(Version(Tag, TrimPrefix(spec, "tag:")))
    else if HasPrefix(spec, "commit:") then Ok(Version(Commit, TrimPrefix(spec, "commit:")))
    else if isSemVerRange(spec) then Ok(Version(SemVerRange, GetLegibleRange(spec)))
    else Err("Invalid version specifier " + spec)
  }

  /**
   * An exact semantic version wins over everything else; a specifier fails
   * only when no test accepts it; and a parsed version renders back to its
   * specifier, a range to its legible form.
   */
  lemma SpecifierContract(spec: string, isSemVerRange: string -> bool)
    ensures IsSemVer(spec) ==> VersionFromSpecifier(spec, isSemVerRange) == Ok(Version(SemVerExact, spec))
    ensures VersionFromSpecifier(spec, isSemVerRange).Err?
        <==> !IsSemVer(spec) && !HasPrefix(spec, "branch:") && !HasPrefix(spec, "tag:")
             && !HasPrefix(spec, "commit:") && !isSemVerRange(spec)
    ensures !IsSemVer(spec) && !HasPrefix(spec, "branch:") && !HasPrefix(spec, "tag:")
            && !HasPrefix(spec, "commit:") && isSemVerRange(spec)
            ==> VersionFromSpecifier(spec, isSemVerRange) == Ok(Version(SemVerRange, GetLegibleRange(spec)))
    ensures var r := VersionFromSpecifier(spec, isSemVerRange);
            r.Ok? ==> String(r.value) == if r.value.kind == SemVerRange then GetLegibleRange(spec) else spec
  {
    if !IsSemVer(spec) {
      if HasPrefix(spec, "branch:") {
        GitRefStrings(TrimPrefix(spec, "branch:"));
      } else if HasPrefix(spec, "tag:") {
        GitRefStrings(TrimPrefix(spec, "tag:"));
      } else if HasPrefix(spec, "commit:") {
        GitRefStrings(TrimPrefix(spec, "commit:"));
      }
    }
  }

  /** `version.Equals`. */
  function Equals(v: Version, other: Version): (r: bool)
    ensures r <==> v == other
  {
    v.kind == other.kind && v.value == other.value
  }

  // ---- getLegibleRange ----

  lemma NoDotWhenNotFound(s: string)
    requires Index(s, ".").None?
    ensures '.' !in s
  {
    forall k | 0 <= k < |s| ensures s[k] != '.' {
      if s[k] == '.' {
        assert s[k..k + 1] == ".";
        assert OccursAt(s, ".", k);
      }
    }
  }

  lemma DigitsHaveNoDot(s: string)
    requires AllDigits(s)
    ensures '.' !in s
  {
  }

  /** A string ending in "x" is not a simple range. */
  lemma EndingInXIsNotSimple(s: string)
    requires |s| > 0 && s[|s| - 1] == 'x'
    ensures !IsSimpleRange(s)
  {
    match Index(s, ".")
    case None =>
      assert !IsDigit(s[|s| - 1]);
    case Some(i) =>
      assert s[i..i + 1] == ".";
      assert s[i] == '.';
      assert i + 1 <= |s| - 1;
      assert s[i + 1..][|s| - 1 - (i + 1)] == 'x';
  }

  /** Rewriting a range is idempotent: a legible range is kept as it is. */
  lemma LegibleRangeIdempotent(s: string)
    ensures GetLegibleRange(GetLegibleRange(s)) == GetLegibleRange(s)
  {
    var r := GetLegibleRange(s);
    if r != s {
      assert |r| > 0 && r[|r| - 1] == 'x';
      EndingInXIsNotSimple(r);
    }
  }

  /** A simple range becomes three dot-separated components, the last of them the wildcard "x". */
  lemma LegibleRangeHasThreeComponents(s: string)
    requires IsSimpleRange(s)
    ensures var parts := Split(GetLegibleRange(s), ".");
            |parts| == 3 && parts[2] == "x" && AllDigits(parts[0]) && |parts[0]| >= 1
  {
    match Index(s, ".")
    case None =>
      NoDotWhenNotFound(s);
      assert !Contains(s, ".");
      assert GetLegibleRange(s) == s + "." + "x" + "." + "x";
      JoinThree(s, "x", "x", ".");
      SplitJoinChar([s, "x", "x"], '.');
    case Some(i) =>
      var a, b := s[..i], s[i + 1..];
      assert s[i..i + 1] == ".";
      assert s == a + "." + b;
      DigitsHaveNoDot(a);
      DigitsHaveNoDot(b);
      assert GetLegibleRange(s) == a + "." + b + "." + "x";
      JoinThree(a, b, "x", ".");
      SplitJoinChar([a, b, "x"], '.');
  }

  // ---- the specifier round trip ----

  lemma GitRefIsNotSemVer(v: Version)
    requires IsGitRef(v.kind)
    ensures !IsSemVer(String(v))
  {
    var s := String(v);
    assert s[0] == LowerChar(KindName(v.kind)[0]);
    if IsSemVer(s) {
      SemVerStartsWithDigit(s);
    }
  }

  lemma GitRefStrings(x: string)
    ensures String(Version(Branch, x)) == "branch:" + x
    ensures String(Version(Tag, x)) == "tag:" + x
    ensures String(Version(Commit, x)) == "commit:" + x
  {
    GitRefString(Branch, x, "branch", "branch:");
    GitRefString(Tag, x, "tag", "tag:");
    GitRefString(Commit, x, "commit", "commit:");
  }

  lemma GitRefString(k: VersionKind, x: string, lowered: string, prefix: string)
    requires IsGitRef(k) && |lowered| == |KindName(k)|
    requires forall i :: 0 <= i < |lowered| ==> lowered[i] == LowerChar(KindName(k)[i])
    requires prefix == lowered + ":"
    ensures String(Version(k, x)) == prefix + x
  {
    assert ToLower(KindName(k)) == lowered;
  }

  /** A branch, tag or commit is parsed back from its specifier, whatever the range test says. */
  lemma {:induction false} GitRefRoundTrip(v: Version, isSemVerRange: string -> bool)
    requires IsGitRef(v.kind)
    ensures VersionFromSpecifier(String(v), isSemVerRange) == Ok(v)
  {
    var s := String(v);
    GitRefIsNotSemVer(v);
    GitRefStrings(v.value);
    match v.kind
    case Branch =>
      Prefixed("branch:", v.value);
    case Tag =>
      OtherPrefix("tag:", "branch:", v.value);
      Prefixed("tag:", v.value);
    case Commit =>
      OtherPrefix("commit:", "branch:", v.value);
      OtherPrefix("commit:", "tag:", v.value);
      Prefixed("commit:", v.value);
  }

  lemma Prefixed(p: string, x: string)
    ensures HasPrefix(p + x, p) && TrimPrefix(p + x, p) == x
  {
    TrimPrefixOf(p, x);
  }

  lemma OtherPrefix(p: string, q: string, x: string)
    requires |p| > 0 && |q| > 0 && p[0] != q[0]
    ensures !HasPrefix(p + x, q)
  {
    assert (p + x)[0] == p[0];
  }

  /** An exact version whose value is a semantic version is parsed back from its specifier. */
  lemma ExactRoundTrip(v: Version, isSemVerRange: string -> bool)
    requires v.kind == SemVerExact && IsSemVer(v.value)
    ensures VersionFromSpecifier(String(v), isSemVerRange) == Ok(v)
  {
  }

  /** The cases of the source's own version tests. */
  lemma ExactExample(isSemVerRange: string -> bool)
    ensures VersionFromSpecifier("1.2.3", isSemVerRange) == Ok(Version(SemVerExact, "1.2.3"))
  {
    SemVerAcceptsPlain();
  }

  /** Each prefix selects its kind and the rest of the specifier is the value. */
  lemma {:induction false} PrefixedSpecifiers(x: string, isSemVerRange: string -> bool)
    ensures VersionFromSpecifier("branch:" + x, isSemVerRange) == Ok(Version(Branch, x))
    ensures VersionFromSpecifier("tag:" + x, isSemVerRange) == Ok(Version(Tag, x))
    ensures VersionFromSpecifier("commit:" + x, isSemVerRange) == Ok(Version(Commit, x))
  {
    GitRefStrings(x);
    GitRefRoundTrip(Version(Branch, x), isSemVerRange);
    GitRefRoundTrip(Version(Tag, x), isSemVerRange);
    GitRefRoundTrip(Version(Commit, x), isSemVerRange);
  }

  /**
   * A specifier that starts with neither a digit nor the first letter of a
   * prefix, and that the range test rejects, is invalid ("foobar" in the
   * source's test).
   */
  lemma {:induction false} InvalidSpecifier(spec: string, isSemVerRange: string -> bool)
    requires |spec| > 0 && !IsDigit(spec[0]) && spec[0] != 'b' && spec[0] != 't' && spec[0] != 'c'
    requires !isSemVerRange(spec)
    ensures VersionFromSpecifier(spec, isSemVerRange) == Err("Invalid version specifier " + spec)
  {
    if IsSemVer(spec) {
      SemVerStartsWithDigit(spec);
    }
    SpecifierContract(spec, isSemVerRange);
    assert !HasPrefix(spec, "branch:") by { if |spec| >= 7 { assert spec[..7][0] == spec[0]; } }
    assert !HasPrefix(spec, "tag:") by { if |spec| >= 4 { assert spec[..4][0] == spec[0]; } }
    assert !HasPrefix(spec, "commit:") by { if |spec| >= 7 { assert spec[..7][0] == spec[0]; } }
  }
}
