/**
 * The selection and path logic of the packages repository: which git tag
 * satisfies a version range, how a range dependency is pinned before its
 * commit is looked up, where a package is cloned from and where it is
 * cached. Git, the network and the disk are parameters.
 */
module PackagesRepositories {
  import opened Wrappers
  import opened Strs
  import opened Utils
  import opened Versions
  import opened Dependencies

  /**
   * The semantic-versioning library the source calls: the error of parsing
   * a range as a constraint (none when it parses), whether a version
   * satisfies a range, and Semantic Versioning 2.0.0 precedence (section 11).
   */
  datatype SemVerLibrary = SemVerLibrary(
    constraintError: string -> Option<string>,
    satisfies: (string, string) -> bool,
    precedes: (string, string) -> bool)

  /** Precedence is a strict order: no version precedes itself, and it chains. */
  ghost predicate StrictOrder(precedes: (string, string) -> bool) {
    (forall a :: !precedes(a, a))
    && (forall a, b, c :: precedes(a, b) && precedes(b, c) ==> precedes(a, c))
  }

  /** A tag is a candidate for a range when it is a strict semantic version that satisfies the range. */
  predicate IsCandidate(lib: SemVerLibrary, rangeString: string, tag: string) {
    IsSemVer(tag) && lib.satisfies(rangeString, tag)
  }

  /** The candidates among `versions`, in order. */
  function Matching(versions: seq<string>, rangeString: string, lib: SemVerLibrary): (r: seq<string>)
    ensures forall v :: v in r <==> v in versions && IsCandidate(lib, rangeString, v)
  {
    if |versions| == 0 then []
    else
      var init := versions[..|versions| - 1];
      var last := versions[|versions| - 1];
      assert versions == init + [last];
      Matching(init, rangeString, lib) + (if IsCandidate(lib, rangeString, last) then [last] else [])
  }

  /** `v` is a candidate that no candidate of `versions` follows. */
  predicate IsLatestMatching(versions: seq<string>, rangeString: string, lib: SemVerLibrary, v: string) {
    v in versions && IsCandidate(lib, rangeString, v)
    && forall w :: w in versions && IsCandidate(lib, rangeString, w) ==> !lib.precedes(v, w)
  }

  const NoMatchingVersionsMessage: string := "No matching versions found"

  /**
   * `GetLatestVersionMatchingRangeFromArray`: parses the range, keeps the
   * tags that parse strictly and satisfy it, and returns the greatest of
   * them. The source sorts the kept versions and takes the last; here the
   * greatest is found by a scan.
   */
  method GetLatestVersionMatchingRangeFromArray(versions: seq<string>, rangeString: string, lib: SemVerLibrary)
    returns (r: Result<string>)
    requires StrictOrder(lib.precedes)
    ensures lib.constraintError(rangeString).Some? ==> r == Err(lib.constraintError(rangeString).value)
    ensures lib.constraintError(rangeString).None? && r.Err? ==>
              r.error == NoMatchingVersionsMessage
              && forall v :: v in versions ==> !IsCandidate(lib, rangeString, v)
    ensures lib.constraintError(rangeString).None? && r.Ok? ==> IsLatestMatching(versions, rangeString, lib, r.value)
  {
    var constraintError := lib.constraintError(rangeString);
    if constraintError.Some? {
      return Err(constraintError.value);
    }
    var matchingVersions: seq<string> := [];
    for i := 0 to |versions|
      invariant matchingVersions == Matching(versions[..i], rangeString, lib)
    {
      assert versions[..i + 1][..i] == versions[..i];
      if IsSemVer(versions[i]) && lib.satisfies(rangeString, versions[i]) {
        matchingVersions := matchingVersions + [versions[i]];
      }
    }
    assert versions[..|versions|] == versions;
    if |matchingVersions| == 0 {
      return Err(NoMatchingVersionsMessage);
    }
    var latest := Latest(matchingVersions, lib);
    return Ok(latest);
  }

  /**
   * The version the source reads off the end of the list after sorting it
   * by precedence: one that no version of the list follows.
   */
  method Latest(matchingVersions: seq<string>, lib: SemVerLibrary) returns (latest: string)
    requires |matchingVersions| > 0 && StrictOrder(lib.precedes)
    ensures latest in matchingVersions
    ensures forall w :: w in matchingVersions ==> !lib.precedes(latest, w)
  {
    latest := matchingVersions[0];
    for i := 1 to |matchingVersions|
      invariant latest in matchingVersions
      invariant forall k :: 0 <= k < i ==> !lib.precedes(latest, matchingVersions[k])
    {
      var v := matchingVersions[i];
      if lib.precedes(latest, v) {
        latest := v;
      }
    }
  }

  const TagRefPrefix: string := "refs/tags/"

  /** The tag names of a repository's tag references: each reference name without "refs/tags/". */
  function TagsOf(refNames: seq<string>): (tags: seq<string>)
    ensures |tags| == |refNames|
    ensures forall i :: 0 <= i < |refNames| && HasPrefix(refNames[i], TagRefPrefix) ==> refNames[i] == TagRefPrefix + tags[i]
    ensures forall i :: 0 <= i < |refNames| && !HasPrefix(refNames[i], TagRefPrefix) ==> tags[i] == refNames[i]
  {
    seq(|refNames|, i requires 0 <= i < |refNames| => TrimPrefix(refNames[i], TagRefPrefix))
  }

  /** The loop of `getVersionMatchingSemVerRange` that collects the tag names. */
  method TagNames(refNames: seq<string>) returns (tags: seq<string>)
    ensures tags == TagsOf(refNames)
  {
    tags := [];
    for i := 0 to |refNames|
      invariant tags == TagsOf(refNames[..i])
    {
      tags := tags + [TrimPrefix(refNames[i], TagRefPrefix)];
    }
    assert refNames[..|refNames|] == refNames;
  }

  predicate NoCandidate(tags: seq<string>, rangeString: string, lib: SemVerLibrary) {
    forall v :: v in tags ==> !IsCandidate(lib, rangeString, v)
  }

  /**
   * `getVersionMatchingSemVerRange`: lists the package's tags (`refNames`,
   * or the error that updating the clone or listing the tags gave) and pins
   * the dependency to the latest tag matching its range.
   */
  method GetVersionMatchingSemVerRange(dep: Dependency, refNames: Result<seq<string>>, lib: SemVerLibrary)
    returns (r: Result<Dependency>)
    requires StrictOrder(lib.precedes)
    ensures refNames.Err? ==> r == Err(refNames.error)
    ensures r.Ok? ==> r.value.name == dep.name && r.value.version.kind == SemVerExact
    ensures r.Ok? ==> refNames.Ok? && IsLatestMatching(TagsOf(refNames.value), dep.version.value, lib, r.value.version.value)
    ensures refNames.Ok? && r.Err? ==> lib.constraintError(dep.version.value).Some?
                                       || NoCandidate(TagsOf(refNames.value), dep.version.value, lib)
  {
    if refNames.Err? {
      return Err(refNames.error);
    }
    var tags := TagNames(refNames.value);
    var latestMatchingVersion := GetLatestVersionMatchingRangeFromArray(tags, dep.version.value, lib);
    if latestMatchingVersion.Err? {
      return Err(latestMatchingVersion.error);
    }
    return Ok(Dependency(dep.name, Version(SemVerExact, latestMatchingVersion.value)));
  }

  /**
   * The first step of `GetResolvedDependencySHA`: a range dependency is
   * pinned to its latest matching tag before its commit is looked up;
   * every other kind is used as it is. `headOf` stands for checking the
   * package out at a version and reading the commit of HEAD; `used` is the
   * dependency it was given.
   */
  method GetResolvedDependencySHA(dep: Dependency, refNames: Result<seq<string>>, lib: SemVerLibrary,
                                  headOf: Dependency -> Result<string>)
    returns (r: Result<string>, ghost used: Dependency)
    requires StrictOrder(lib.precedes)
    ensures dep.version.kind != SemVerRange ==> used == dep && r == headOf(dep)
    ensures dep.version.kind == SemVerRange && refNames.Err? ==> r == Err(refNames.error)
    ensures dep.version.kind == SemVerRange && r.Ok? ==>
              r == headOf(used) && used.name == dep.name && used.version.kind == SemVerExact
              && refNames.Ok? && IsLatestMatching(TagsOf(refNames.value), dep.version.value, lib, used.version.value)
  {
    used := dep;
    var exact := dep;
    if dep.version.kind == SemVerRange {
      var exactDep := GetVersionMatchingSemVerRange(dep, refNames, lib);
      if exactDep.Err? {
        return Err(exactDep.error), dep;
      }
      exact := exactDep.value;
      used := exact;
    }
    r := headOf(exact);
  }

  // ---- URLs and cache directories ----

  /** `getGitUrl`: the HTTPS clone URL of a package. */
  function GitUrl(packageName: string): (url: string)
    ensures HasPrefix(url, "https://") && HasSuffix(url, ".git")
  {
    "https://" + packageName + ".git"
  }

  /** The package name reads back from its clone URL. */
  lemma GitUrlRoundTrip(packageName: string)
    ensures TrimSuffix(TrimPrefix(GitUrl(packageName), "https://"), ".git") == packageName
  {
    var url := GitUrl(packageName);
    assert url == "https://" + (packageName + ".git");
    assert TrimPrefix(url, "https://") == packageName + ".git";
  }

  /** `getCacheDir`: the `cache` folder under the ahkpm directory. */
  function CacheDir(ahkpmDir: string): (dir: string)
    ensures HasPrefix(dir, ahkpmDir)
  {
    ahkpmDir + "\\cache"
  }

  /** `getPackageCacheDir`: the package's folder in the cache. */
  function PackageCacheDir(ahkpmDir: string, depName: string): (dir: string)
    ensures HasPrefix(dir, CacheDir(ahkpmDir) + "\\")
  {
    CacheDir(ahkpmDir) + "\\" + depName
  }

  /** Different packages are cached in different folders, all inside the cache. */
  lemma PackageCacheDirsDiffer(ahkpmDir: string, a: string, b: string)
    ensures PackageCacheDir(ahkpmDir, a) == PackageCacheDir(ahkpmDir, b) <==> a == b
    ensures PackageCacheDir(ahkpmDir, a)[|CacheDir(ahkpmDir)| + 1..] == a
  {
    var prefix := CacheDir(ahkpmDir) + "\\";
    assert PackageCacheDir(ahkpmDir, a) == prefix + a;
    assert PackageCacheDir(ahkpmDir, b) == prefix + b;
    assert (prefix + a)[|prefix|..] == a;
    assert (prefix + b)[|prefix|..] == b;
  }
}
