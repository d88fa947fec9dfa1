# ahkpm dependency engine in Dafny

This project models the core of ahkpm, a package manager for AutoHotkey
written in Go, and proves properties of the model. Packages are GitHub
repositories named `github.com/owner/repo`. The manifest `ahkpm.json` lists
the project's direct dependencies. The lockfile `ahkpm.lock` lists every
resolved package with its version, its commit SHA and its install path under
`ahkpm-modules`.

The modelled parts are:

- **Values.** `Version` is a tagged union of five kinds. It has a parser
  (`VersionFromSpecifier`) and a `kind:value` renderer. `Dependency` covers
  name canonicalisation (`gh:` becomes `github.com/`), name validation and
  `name@version` splitting. The model also covers `DependencySet` (a map
  keyed by name), `DependencyArray` comparison, `ResolvedDependency` and the
  `LockManifest` builders.
- **Trees.** This covers the generic `TreeNode`, with pre-order `Flatten`
  and `ForEach`, and the `ResolvedDependencyTree` forest:
  - flatten, visit and map over the forest;
  - the install path of a node, and root-level `Merge`;
  - the conflict check;
  - the rebuild of the forest from the flat lockfile array, which parses
    install paths back into ancestor names and sorts siblings by name at
    every depth.
- **Orchestration.** This covers the one-level resolver and the decisions
  of `Installer.Install` and `Installer.Update`. `Install` decides whether
  to trust the lockfile. `Update` validates its targets, rejects duplicates,
  replaces roots in place and checks for conflicts before any filesystem
  effect. Effects are recorded as a log.
- **Supporting code.**
  - The Semantic Versioning 2.0.0 recogniser `utils.IsSemVer`.
  - The choice of the highest tag that matches a range.
  - The repository URL and cache paths.
  - The `init` prompt validators.
  - The `list` and `search` tables.
  - The add-once `ServiceLocator` registry.

Go's `(value, error)` results are `Result`/`Option` values. A Go pointer
`Parent` is replaced by the list of ancestor names that a traversal carries
down. Some code is not shown or lives in a library:

- `utils.IsSemVerRange` and `utils.RightPad`;
- the semver constraint library;
- the package repository and the resolver's repository calls.

Each of these is a function parameter. Where a lemma needs it, its expected
behaviour is a hypothesis of that lemma. `TreeNode.Map` is not shown either.
It is not a parameter: `EnsureInstallPaths` fixes what it is assumed to do,
as "## Left out" says.

Go's map iteration visits every key once, in an order it leaves open. The
`Listings` module states what such a walk yields: the entries of the map,
each counted once per key that holds it. `AsArray`, the lockfile's
`UnmarshalJSON` and the `list` table are proved to list exactly that.

## Model

| member | source | states |
|---|---|---|
| Utils.RenderedIsSemVer | src/utils/utils.go:12-20 | every rendering of well-formed version parts (numeric major/minor/patch without leading zeros, optional pre-release and build identifiers) is accepted by IsSemVer |
| Utils.SemVerIsRendered | src/utils/utils.go:12-20 | every string IsSemVer accepts parses into well-formed parts whose rendering is the string itself (the match is anchored) |
| Utils.SemVerCharacterisation | src/utils/utils.go:12-20 | IsSemVer(s) holds exactly when s is the rendering of some well-formed version parts |
| Utils.SemVerAcceptsPlain | src/utils/utils_test.go:10-15 | "1.2.3" is a semantic version |
| Utils.SemVerAcceptsPreRelease | src/utils/utils_test.go:10-15 | "1.2.3-beta.1" is a semantic version |
| Utils.SemVerAcceptsBuild | src/utils/utils_test.go:10-15 | "1.2.3-beta.1+build.1" is a semantic version |
| Utils.SemVerRejectsFoobar | src/utils/utils_test.go:10-15 | "foobar" is not a semantic version |
| Utils.SemVerStartsWithDigit | src/utils/utils.go:14 | an accepted version is non-empty and starts with a digit, with nothing before the major number |
| Utils.CoreRoundTrip | src/utils/utils.go:14 | a version core splits at the dots into exactly three parts that join back to it |
| Versions.String | src/core/version.go:87-92 | exact versions and ranges render as their bare value; git references render as a prefix ending in their value |
| Versions.GitRefStrings | src/core/version.go:87-92 | Branch, Tag and Commit render as "branch:", "tag:" and "commit:" followed by the value |
| Versions.Equals | src/core/version.go:102-104 | two versions are equal exactly when kind and value are equal |
| Versions.VersionFromSpecifier | src/core/version.go:43-66 | every failure carries the message "Invalid version specifier " followed by the specifier |
| Versions.SpecifierContract | src/core/version.go:43-66 | an accepted semantic version is SemVerExact with its value unchanged, before any prefix check; the parse fails exactly when no rule applies; a specifier that only the range test accepts becomes a SemVerRange holding its legible form; every result renders back to its specifier, a range to its legible form |
| Versions.PrefixedSpecifiers | src/core/version.go:49-57 | a "branch:", "tag:" or "commit:" prefix yields that kind with the prefix stripped |
| Versions.InvalidSpecifier | src/core/version.go:61-62 | a specifier that is no version, no known prefix and no range is rejected with the invalid-specifier message |
| Versions.ExactExample | src/core/version_test.go:19 | "1.2.3" parses to SemVerExact "1.2.3" |
| Versions.GitRefRoundTrip | src/core/version.go:49-57 | parsing the rendering of a git reference gives back the same version |
| Versions.ExactRoundTrip | src/core/version.go:46-48 | parsing the rendering of a well-formed exact version gives back the same version |
| Versions.GitRefIsNotSemVer | src/core/version.go:46-57 | a rendered git reference is never mistaken for a semantic version, so the prefix rule is the one that applies |
| Versions.LegibleRangeIdempotent | src/core/version.go:71-84 | making a range legible twice changes nothing more than doing it once |
| Versions.LegibleRangeHasThreeComponents | src/core/version.go:71-84 | a bare "N" or "N.M" range becomes three dot-separated components ending in "x" |
| Versions.EndingInXIsNotSimple | src/core/version.go:71-84 | a range already ending in "x" is not rewritten |
| Dependencies.Canonicalize | src/core/dependency.go:97-103 | a leading "gh:" is replaced by "github.com/" once; any other name is returned unchanged |
| Dependencies.CanonicalizeIdempotent | src/core/dependency.go:97-103 | canonicalising twice is the same as canonicalising once |
| Dependencies.ShorthandIsNotCanonical | src/core/dependency.go:97-103 | canonicalisation changes a name exactly when it starts with "gh:" |
| Dependencies.ValidNameCharacterisation | src/core/dependency.go:90-95 | a valid name is exactly "github.com/" + owner + "/" + repo, each segment non-empty word characters, '-' or '.' |
| Dependencies.ValidNameIsCanonical | src/core/dependency.go:90-103 | a valid name is already canonical |
| Dependencies.DependencyFromSpecifiers | src/core/dependency.go:33-65 | a built dependency carries the canonical name |
| Dependencies.FromSpecifiersContract | src/core/dependency.go:33-65 | an invalid canonical name fails first with "Invalid dependency name"; a non-empty specifier gives VersionFromSpecifier's version or error; an empty one asks for the latest version and stores an exact v as the range "^v" |
| Dependencies.DependencyFromSpecifier | src/core/dependency.go:67-76 | a specifier is split at its first "@" into name and version, and without "@" the version is empty |
| Dependencies.SpecifierParts | src/core/dependency.go:67-76 | the name part holds no "@", and name + "@" + version restores the specifier |
| Dependencies.ShorthandSpecifier | src/core/dependency.go:34 | "gh:" + x and "github.com/" + x give the same dependency or the same error |
| Dependencies.OnlyCanonicalNameMatters | src/core/dependency.go:33-65 | names with the same canonical form give the same result |
| Dependencies.SpecifiersRoundTrip | src/core/dependency.go:33-65 | a valid dependency with a git reference or exact version is rebuilt from its name and rendered version |
| Dependencies.ForeignNameRejected | src/core/dependency_test.go:29-31 | a name not on GitHub is rejected with "Invalid dependency name" whatever the version |
| Dependencies.Equals | src/core/dependency.go:86-88 | two dependencies are equal exactly when names and versions are equal |
| DependencyArrays.LastByName | src/core/dependency_array.go:10-13 | the lookup map holds every name of the array, each under its own name |
| DependencyArrays.LastByNameLookup | src/core/dependency_array.go:10-13 | a name is in the map exactly when some element has it, and maps to the last element with that name |
| DependencyArrays.Equals | src/core/dependency_array.go:5-23 | the loop's answer is exactly ArrayEquals: same length, and every element of the other array equals the last same-named element |
| DependencyArrays.DifferentLengths | src/core/dependency_array.go:6-8 | arrays of different lengths are unequal |
| DependencyArrays.SelfEquals | src/core/dependency_array_test.go:11-23 | an array with distinct names equals itself |
| DependencyArrays.DifferentVersionUnequal | src/core/dependency_array_test.go:25-36 | a same-named element with another version makes the arrays unequal |
| DependencyArrays.OrderIrrelevant | src/core/dependency_array.go:10-22 | for arrays with distinct names, reordering either array does not change the answer |
| DependencyArrays.RepeatedNameShadowed | src/core/dependency_array.go:10-22 | a repeated name is compared only through its last element |
| DependencySets.DependencySet.Len | src/core/dependency_set.go:32-34 | the length is the number of names stored |
| DependencySets.DependencySet.AsMap | src/core/dependency_set.go:48-50 | the map holds exactly the set's entries |
| DependencySets.DependencySet.Equals | src/core/dependency_set.go:16-29 | the loop answers exactly SetEquals: same size, and every entry of the other set equals the entry stored under its name |
| DependencySets.DependencySet.AsArray | src/core/dependency_set.go:37-45 | the array holds each entry of the set exactly once per key that holds it, in some order, so its length is Len; it holds only entries and every entry; with entries keyed by name the names are distinct |
| Listings.FillInMapOrder | src/core/dependency_set.go:37-45 | filling the slots in map order leaves in the array exactly the map's entries, each as many times as keys hold it |
| Listings.ListedAlong | src/core/resolved_dependency.go:53-59 | values read along an order that visits keys at most once are the entries of the visited keys, each once per key |
| Listings.EntriesCount | src/core/dependency_set.go:37-45 | an entry is counted in a listing as many times as there are keys holding it |
| Listings.EntriesMembers | src/core/dependency_set.go:37-45 | a listing has one slot per key and holds exactly the map's values |
| DependencySets.ListingMembers | src/core/dependency_set.go:37-45 | a listing of a set has Len slots, holds only entries of the set and holds every entry |
| DependencySets.ListingCount | src/core/dependency_set.go:37-45 | a listing of a set holds an entry as many times as there are keys holding it |
| DependencySets.KeyedListingDistinct | src/core/dependency_set.go:37-45 | a listing of a set keyed by name has no two entries with the same name |
| DependencySets.DependencySet.Marshal | src/core/dependency_set.go:52-59 | the JSON map has one key per entry name and maps each name to the rendered version of an entry with that name (the last one visited when two keys hold that name); for a set keyed by name it is exactly each name mapped to its rendered version |
| DependencySets.DependencySet.Unmarshal | src/core/dependency_set.go:61-77 | it succeeds exactly when every entry parses, then holds the parsed entries; otherwise it returns the error of an entry that fails |
| DependencySets.AddKeepsKeyedByName | src/core/dependency_set.go:80-83 | adding keeps every entry stored under its own name |
| DependencySets.AddLen | src/core/dependency_set_test.go:19-29 | adding grows the set by one for a new name and leaves it the same size for a present name |
| DependencySets.AddIdempotent | src/core/dependency_set.go:80-83 | adding the same dependency twice is adding it once, and other names are untouched |
| DependencySets.SetEqualsIsEquality | src/core/dependency_set.go:16-29 | for sets keyed by name, Equals holds exactly when the sets are equal |
| DependencySets.MarshalRoundTrip | src/core/dependency_set.go:52-77 | unmarshalling the marshalled form of restorable entries gives back the same set |
| DependencySets.UnmarshalKeepsShorthandKeys | src/core/dependency_set.go:61-77 | the parsed set is keyed by its entries' names exactly when no input key uses the "gh:" shorthand |
| DependencySets.ShorthandParsesAlike | src/core/dependency.go:33-34 | a name and its "gh:" shorthand are different JSON keys that parse to the same dependency |
| DependencySets.ShorthandListedTwice | src/core/dependency_set.go:61-77 | a JSON map naming one package both as "gh:" shorthand and in full parses to a set whose every listing is that dependency twice |
| DependencySets.ListedTwice | src/core/dependency_set.go:37-45 | a set holding one entry under exactly two keys is listed as that entry twice |
| DependencySets.ParsedName | src/core/dependency_set.go:61-77 | each parsed entry carries the canonical form of its key |
| ResolvedDependencies.WithDependencies | src/core/resolved_dependency.go:17-20 | the copy has the given dependency list and the same name, version, SHA and install path |
| ResolvedDependencies.AddDependency | src/core/resolved_dependency.go:22-39 | a new name is appended; a present name overwrites its last occurrence in place; nothing else changes; the name lookup gains the new entry |
| ResolvedDependencies.LastByNameOverwrite | src/core/resolved_dependency.go:26-36 | overwriting the last occurrence of a name updates the lookup for that name only |
| ResolvedDependencies.Marshal | src/core/resolved_dependency.go:64-78 | the JSON map sends each name to the rendered version of its last entry |
| ResolvedDependencies.Unmarshal | src/core/resolved_dependency.go:41-62 | it succeeds exactly when every entry parses; the existing list is then kept in front, followed by the parsed entries in JSON map order, each once per JSON key that parses to it; otherwise it returns an entry's error |
| ResolvedDependencies.ParsedInOrder | src/core/resolved_dependency.go:53-59 | the entries appended along the JSON map order are the parsed map's entries, once per key |
| ResolvedDependencies.MarshalRoundTrip | src/core/resolved_dependency.go:41-78 | unmarshalling the marshalled list of distinct restorable dependencies gives back exactly its elements |
| LockManifests.NewLockManifest | src/core/lock_manifest.go:15-21 | a new lockfile has version "1", no dependencies and no resolved entries |
| LockManifests.WithResolved | src/core/lock_manifest.go:23-38 | the resolved list is the pre-order flattening of the forest; version and dependencies are kept |
| LockManifests.AppendVisited | src/core/lock_manifest.go:25-29 | the visitor appends a root's subtree in pre-order |
| LockManifests.WithDependencies | src/core/lock_manifest.go:40-43 | only the dependencies are replaced |
| LockManifests.OneEntryPerNode | src/core/lock_manifest.go:23-38 | the resolved list has one entry per node of the forest and holds every root |
| TreeNodes.NewTreeNode | src/core/tree_node.go:9-15 | a new node holds the value, is a leaf and flattens to that single value |
| TreeNodes.FlattenIsPreOrder | src/core/tree_node.go:21-32 | Flatten lists the node's value, then its subtrees' values left to right, in pre-order |
| TreeNodes.FlattenLength | src/core/tree_node.go:21-32 | a flattening has one value per node and starts with the node's own value |
| TreeNodes.FlattenUniform | src/core/tree_node.go:21-32 | a flattening is the value followed by the flattenings of the children in order |
| TreeNodes.ForEachIsPreOrder | src/core/tree_node.go:34-50 | ForEach visits nodes in pre-order, returns the first callback error and visits nothing after it |
| TreeNodes.ForEachWithoutErrors | src/core/tree_node.go:34-50 | when no callback fails, ForEach succeeds and visits exactly the values Flatten lists |
| TreeNodes.WithChildren | src/core/tree_node.go:52-60 | the value is unchanged, the old children are kept in front in their order, and the new children follow them in theirs |
| TreeNodes.FlattenWithChildren | src/core/tree_node.go:52-60 | the new children follow the old ones in order |
| TreeNodes.FlattenEachMember | src/core/resolved_dependency_tree.go:12-18 | a value is in a forest's flattening exactly when it is in some root's flattening |
| ResolvedDependencyTrees.Flatten | src/core/resolved_dependency_tree.go:12-18 | the forest flattening is each root's pre-order flattening, concatenated in root order |
| ResolvedDependencyTrees.ForEach | src/core/resolved_dependency_tree.go:20-28 | the result is the first callback error over the forest's nodes in pre-order |
| ResolvedDependencyTrees.Map | src/core/resolved_dependency_tree.go:30-36 | there are as many roots as before, each replaced by the node map's image of it |
| ResolvedDependencyTrees.GetRelativeInstallPath | src/core/resolved_dependency_tree.go:69-78 | the path is the one InstallPath defines from the ancestor names |
| ResolvedDependencyTrees.RootInstallPath | src/core/resolved_dependency_tree.go:69-78 | a root installs at "ahkpm-modules/" + name |
| ResolvedDependencyTrees.ChildInstallPath | src/core/resolved_dependency_tree.go:69-78 | a child installs at its parent's path + "/ahkpm-modules/" + name |
| ResolvedDependencyTrees.EnsureInstallPaths | src/core/resolved_dependency_tree.go:39-44 | each root is stamped with install paths below it |
| ResolvedDependencyTrees.StampPlaces | src/core/resolved_dependency_tree.go:39-44 | after stamping, every node sits at the path its ancestors give, and nothing but the paths changed |
| ResolvedDependencyTrees.StampKeepsPlacedTree | src/core/resolved_dependency_tree.go:39-44 | a tree whose paths are already right is not changed |
| ResolvedDependencyTrees.StampIdempotent | src/core/resolved_dependency_tree.go:39-44 | stamping twice is stamping once |
| ResolvedDependencyTrees.InstallPathRoundTrip | src/core/resolved_dependency_tree.go:92-99 | the ancestor names parsed back from an install path are the ones that produced it, when no name contains "/ahkpm-modules/" |
| ResolvedDependencyTrees.RootPathReadsBack | src/core/resolved_dependency_tree.go:92-99 | a root's path yields no ancestors |
| ResolvedDependencyTrees.SeparatorInsideName | src/core/resolved_dependency_tree.go:92-99 | an ancestor name holding "/ahkpm-modules/" is read back as two ancestors |
| ResolvedDependencyTrees.OwnerNamedModulesSplits | src/core/resolved_dependency_tree.go:92-99 | a package of the GitHub owner "ahkpm-modules" is read back as two ancestors |
| ResolvedDependencyTrees.LastNamed | src/core/resolved_dependency_tree.go:51-55 | the index map of the merge keeps, for each name, the last root with that name |
| ResolvedDependencyTrees.Merge | src/core/resolved_dependency_tree.go:50-67 | the merge loop computes Merged: matched roots are overwritten at their index, others appended in incoming order |
| ResolvedDependencyTrees.IndexRootsByName | src/core/resolved_dependency_tree.go:52-55 | the index holds exactly the names of the base roots, each mapped to the last root carrying that name |
| ResolvedDependencyTrees.MergeRoot | src/core/resolved_dependency_tree.go:58-64 | merging the next incoming root extends the merge of the incoming roots before it by one |
| ResolvedDependencyTrees.MergeStep | src/core/resolved_dependency_tree.go:58-64 | one incoming root overwrites the root indexed under its name, or else is appended |
| ResolvedDependencyTrees.MergeKeepsOtherRoots | src/core/resolved_dependency_tree.go:50-67 | a base root that no incoming root names keeps its value and index |
| ResolvedDependencyTrees.MergeNames | src/core/resolved_dependency_tree.go:50-67 | the merged names are the base names followed by the unmatched incoming names |
| ResolvedDependencyTrees.MergeKeepsIncoming | src/core/resolved_dependency_tree.go:50-67 | with distinct names on both sides, every incoming root is in the merge |
| ResolvedDependencyTrees.MergeEmpty | src/core/resolved_dependency_tree.go:50-67 | merging nothing changes nothing, and merging into nothing gives the incoming roots |
| ResolvedDependencyTrees.CheckForConflicts | src/core/resolved_dependency_tree.go:188-207 | it fails exactly when two flattened entries share a name and differ in version or SHA, reporting the first such entry against the first of its name, version before SHA |
| ResolvedDependencyTrees.AgreementMeansNoConflicts | src/core/resolved_dependency_tree.go:188-207 | entries that agree with the first of their name have no conflict |
| ResolvedDependencyTrees.ConflictFound | src/core/resolved_dependency_tree.go:188-207 | the first entry that disagrees with the first of its name is a conflict, and it is the one reported |
| ResolvedDependencyTreeSort.StableSortPermutes | src/core/resolved_dependency_tree.go:178-186 | sorting siblings reorders them and loses or adds none |
| ResolvedDependencyTreeSort.StableSortSorted | src/core/resolved_dependency_tree.go:178-186 | sorted siblings are in name order |
| ResolvedDependencyTreeSort.StableSortStable | src/core/resolved_dependency_tree.go:178-186 | siblings of equal name keep their relative order |
| ResolvedDependencyTreeSort.SortByName | src/core/resolved_dependency_tree.go:178-186 | the in-place array sort leaves the stable sort of the old contents |
| ResolvedDependencyTreeSort.InsertLast | src/core/resolved_dependency_tree.go:179-181 | one insertion step: the sorted prefix gains the next element at its stable place, the rest of the array untouched |
| ResolvedDependencyTreeSort.OpenGap | src/core/resolved_dependency_tree.go:179-181 | shifting right the names greater than the one being inserted opens the gap where stable insertion places it |
| ResolvedDependencyTreeSort.SortAllByNames | src/core/resolved_dependency_tree.go:178-186 | the array ends up as SortAll of its old contents: every level sorted by name |
| ResolvedDependencyTreeSort.SortEachInPlace | src/core/resolved_dependency_tree.go:183-185 | the loop over the roots leaves each one with its subtree sorted at every level |
| ResolvedDependencyTreeSort.SortChildren | src/core/resolved_dependency_tree.go:184 | the recursive call sorts a node's children at every level |
| ResolvedDependencyTreeSort.SortAllSorted | src/core/resolved_dependency_tree.go:134 | after SortAll, siblings are sorted by name at every depth |
| ResolvedDependencyTreeSort.SortAllContents | src/core/resolved_dependency_tree.go:134 | SortAll keeps the forest's entries, as a multiset |
| ResolvedDependencyTreeSort.SortAllInTwoSteps | src/core/resolved_dependency_tree.go:178-186 | sorting roots first and then each subtree is the same as SortAll |
| ResolvedDependencyTreeBuild.FirstNodeNamed | src/core/resolved_dependency_tree.go:143-159 | the lookup finds the first sibling with the name, or reports that none has it |
| ResolvedDependencyTreeBuild.FindByNamesPath | src/core/resolved_dependency_tree.go:143-159 | the walk down the names path finds the node Find defines, or nothing |
| ResolvedDependencyTreeBuild.ReplaceByNamesPath | src/core/resolved_dependency_tree.go:161-176 | the walk replaces the node at the names path as Replace defines, keeping the roots' number |
| ResolvedDependencyTreeBuild.ReplaceDeep | src/core/resolved_dependency_tree.go:161-176 | replacing below a root rewrites only that root's children |
| ResolvedDependencyTreeBuild.PlaceChild | src/core/resolved_dependency_tree.go:124-129 | attaching an entry under the node its ancestor names reach keeps the forest well placed and adds exactly that entry |
| ResolvedDependencyTreeBuild.SortAllPlaced | src/core/resolved_dependency_tree.go:134 | sorting keeps every entry under its ancestors |
| ResolvedDependencyTreeBuild.TakeRoots | src/core/resolved_dependency_tree.go:108-116 | entries without ancestors become roots; the rest wait, and no entry is lost |
| ResolvedDependencyTreeBuild.ReadDependers | src/core/resolved_dependency_tree.go:91-104 | the first loop pairs every entry, in order, with the names of its ancestors read from its install path |
| ResolvedDependencyTreeBuild.AttachPass | src/core/resolved_dependency_tree.go:121-131 | a pass attaches the waiting entries whose parents are present; without progress, no waiting entry has its parent |
| ResolvedDependencyTreeBuild.Stalled | src/core/resolved_dependency_tree.go:120-132 | when no waiting entry can be attached, some entry names ancestors no entry provides |
| ResolvedDependencyTreeBuild.NoOrphans | src/core/resolved_dependency_tree.go:82-137 | a well-placed forest of all entries leaves no entry without its ancestors |
| ResolvedDependencyTreeBuild.FromArray | src/core/resolved_dependency_tree.go:82-137 | the rebuild fails exactly when an entry's ancestors are missing; otherwise every entry appears once, under its ancestors, siblings sorted by name |
| DependencyResolvers.Resolve | src/core/dependency_resolver.go:32-53 | an empty list resolves to an empty forest; success exactly when every lookup succeeds; node i holds deps[i] over leaf children for its dependencies in order; otherwise the first failure's error |
| DependencyResolvers.ArrayToNodes | src/core/dependency_resolver.go:59-65 | one leaf node per element, in order |
| DependencyResolvers.LeavesUnderRoot | src/core/dependency_resolver.go:45-48 | resolution goes one level deep: a resolved root has height 1 or 2 |
| Installers.CopyEach | src/core/installer.go:19-24 | the copy loop copies each entry to its install path in order and stops at the first failure, which it returns |
| Installers.CopiesFollowForEach | src/core/installer.go:36-39 | copying the flattened forest is copying in ForEach's pre-order, with the same first error |
| Installers.Install | src/core/installer.go:12-48 | a lockfile with the same dependency set is copied entry by entry with no resolve and no save; otherwise a resolve error stops before any removal; otherwise the modules are cleared, the tree copied in pre-order and the lockfile saved only after all copies succeed |
| Installers.InstallForest | src/core/installer.go:35-47 | clear, copy in pre-order, and save the lockfile of the dependencies and the tree only when every copy succeeded |
| Installers.SelectForUpdate | src/core/installer.go:53-64 | the first name missing from the manifest is reported by its canonical name; duplicates after canonicalisation are rejected |
| Installers.UpdateRejectsDuplicates | src/core/installer.go:62-64 | the selection is short exactly when two requested names canonicalise to the same package |
| Installers.SelectedKeys | src/core/installer.go:53-61 | the selected names are exactly the canonical requested names |
| Installers.ReplaceRoots | src/core/installer.go:79-86 | the nested loop computes ReplacedRoots |
| Installers.ReplacementKeepsRoots | src/core/installer.go:79-86 | the roots keep their number and names; an unmatched root is unchanged; a matched root becomes a newly resolved root; no new root is added |
| Installers.Update | src/core/installer.go:50-113 | missing and duplicate targets are refused with no effect; a resolve error or a lockfile error stops before any filesystem effect; otherwise Replaced holds: a lockfile with an unplaceable entry gives that error and no effect, a conflict in the combined forest gives the first conflict's error and no effect, and a conflict-free forest is installed |
| Installers.ReplaceAndInstall | src/core/installer.go:77-113 | a lockfile entry whose ancestors are missing gives the unplaced-entry error and no effect; otherwise the previous forest is rebuilt sorted with every entry in place, its roots are replaced, and the combined forest is checked for conflicts before ahkpm-modules is touched: a conflict reports the first one and does nothing, otherwise the forest is installed in pre-order and the saved lockfile keeps the previous dependency set |
| PackagesRepositories.Matching | src/core/packages_repository.go:266-273 | the candidates are exactly the listed tags that are strict versions satisfying the range |
| PackagesRepositories.GetLatestVersionMatchingRangeFromArray | src/core/packages_repository.go:260-284 | a range that fails to parse returns its error; no candidate gives "No matching versions found"; otherwise the result is a candidate that no candidate exceeds |
| PackagesRepositories.Latest | src/core/packages_repository.go:279-283 | the chosen version is among the matches and no match follows it in precedence |
| PackagesRepositories.TagNames | src/core/packages_repository.go:111-116 | each tag is its reference name without "refs/tags/" |
| PackagesRepositories.GetVersionMatchingSemVerRange | src/core/packages_repository.go:101-127 | a tag listing error is returned; a success is the same name at the exact latest matching tag; a failure means the range does not parse or no tag matches |
| PackagesRepositories.GetResolvedDependencySHA | src/core/packages_repository.go:76-99 | a range is rewritten to its latest matching exact version before the SHA lookup; other kinds are looked up as they are |
| PackagesRepositories.GitUrlRoundTrip | src/core/packages_repository.go:256-258 | the git URL is "https://" + name + ".git", from which the name is read back |
| PackagesRepositories.PackageCacheDir | src/core/packages_repository.go:133-139 | a package's cache directory is the cache directory, a backslash, then the name |
| PackagesRepositories.PackageCacheDirsDiffer | src/core/packages_repository.go:137-139 | different packages have different cache directories |
| Initializers.ValidateNothing | src/core/initializer.go:145-147 | every answer is accepted |
| Initializers.ValidateRequired | src/core/initializer.go:149-155 | exactly the empty answer is rejected, with "Value is required" |
| Initializers.ValidateSemver | src/core/initializer.go:157-164 | the answer is accepted exactly when IsSemVer accepts it |
| Initializers.SemverPromptAccepts | src/core/initializer.go:157-164 | the version prompt accepts exactly renderings of well-formed version parts |
| Initializers.GitHubCharacterisation | src/core/initializer.go:166-176 | accepted URLs are exactly "https://github.com/" + owner + "/" + repo with valid segments |
| Initializers.GitHubUrlOfPackage | src/core/initializer.go:166-176 | "https://" + name is accepted exactly when name is a valid package name |
| Initializers.ValidateYesNo | src/core/initializer.go:194-199 | exactly "y" and "n" are accepted |
| Initializers.BuildValidatorFromList | src/core/initializer.go:201-209 | exactly the listed options are accepted |
| Initializers.MakeOptional | src/core/initializer.go:211-219 | the empty answer is accepted and any other answer gets the wrapped validator's verdict and message |
| Initializers.OptionalRejects | src/core/initializer.go:211-219 | an optional validator rejects exactly the non-empty answers the validator rejects |
| Initializers.GetDefaultIssueTracker | src/core/initializer.go:257-263 | no repository gives no tracker; otherwise the tracker is the repository followed by "/issues" |
| Tables.Longest | src/cmd/list.go:26-39 | the width is at least every cell's length, is some cell's length, and is 0 for no cells |
| Tables.LongestInAnyOrder | src/cmd/list.go:26-39 | the longest cell does not depend on the order cells are listed in |
| Tables.LinesSplit | src/cmd/list.go:41-47 | lines without newlines, each written with a newline, split back into the same lines and an empty rest |
| ListCommand.GetDependenciesForDisplay | src/cmd/list.go:25-48 | the output is header, underline and one row per key of the set, each entry as many times as keys hold it, in the order of the set's last listing, with widths of the whole set |
| ListCommand.LongestName | src/cmd/list.go:26-32 | the loop finds the longest name |
| ListCommand.LongestVersion | src/cmd/list.go:34-39 | the loop finds the longest rendered version |
| ListCommand.AppendRows | src/cmd/list.go:44-46 | the loop appends one row per dependency in order |
| ListCommand.WidthOfListing | src/cmd/list.go:26-39 | the widths measured on a listing are those of the set |
| ListCommand.LineCount | src/cmd/list.go:41-47 | the output splits into 2 + Len lines and an empty rest |
| ListCommand.ColumnsAligned | src/cmd/list_test.go:11-23 | the underline is dashes to each width; the header's tab sits at the name width (at least 4); every row has its name then spaces up to the tab at the name width, then its version |
| ListCommand.OutputDependsOnMapOrder | src/cmd/list.go:44-46 | for the set of the test, both listing orders are possible and give different outputs |
| ListCommand.SortByName | src/cmd/list.go:44-46 | the sort keeps the entries and orders distinct names strictly |
| ListCommand.GetSortedDependenciesForDisplay | src/cmd/list_test.go:11-23 | the corrected table lists every entry once in strict name order |
| ListCommand.SortedListingUnique | src/cmd/list_test.go:11-23 | two strictly name-ordered lists of the same entries are equal |
| ListCommand.SortedTableIsDetermined | src/cmd/list_test.go:11-23 | the corrected table is the same for every listing order of the set |
| SearchCommand.GetSearchResultsTable | src/cmd/search.go:50-81 | the table is header, underline and one row per item in input order, the name column as wide as the longest full name plus "github.com/" and the description column as wide as the longest description |
| SearchCommand.WriteHeader | src/cmd/search.go:64-72 | the header and underline written first are the table of no rows at the computed widths |
| SearchCommand.LongestCells | src/cmd/search.go:51-60 | the loop finds the longest full name and the longest description |
| SearchCommand.WriteRows | src/cmd/search.go:73-79 | the loop writes one row per item in order |
| SearchCommand.LineCount | src/cmd/search.go:70-80 | the table splits into 2 + the number of items lines and an empty rest |
| SearchCommand.Grid | src/cmd/search_test.go:11-33 | the underline and every row are as long as both widths plus the tab; each row is "github.com/" + full name then spaces up to the tab, then the description then spaces |
| ServiceLocators.Added | src/service_locator/service_locator.go:37-44 | a new name is registered with the service and no error; a taken name gives "Service <name> already exists" and keeps the registry; other names are untouched |
| ServiceLocators.Lookup | src/service_locator/service_locator.go:26-32 | a registered name gives its service; any other name fails with "Service <name> not found" |
| ServiceLocators.ServiceLocator.Get | src/service_locator/service_locator.go:26-32 | the result is the lookup in the registry |
| ServiceLocators.ServiceLocator.Add | src/service_locator/service_locator.go:37-44 | the registry and error become what Added gives |
| ServiceLocators.GetServiceLocator | src/service_locator/service_locator.go:17-23 | the first locator when one is passed and not nil, otherwise the default |
| ServiceLocators.AddThenGet | src/service_locator/service_locator.go:26-44 | a service added under a free name is what Get returns |
| ServiceLocators.AddKeepsOthers | src/service_locator/service_locator.go:42 | adding does not change another name's lookup |
| ServiceLocators.FirstAddWins | src/service_locator/service_locator.go:37-41 | a second add under a name fails and the first service stays |
| ServiceLocators.AddAllKeeps | src/service_locator/service_locator.go:37-44 | after any adds every earlier service is kept and every added name is registered |

## Left out

- JSON encoding and decoding are not modelled. The Marshal and Unmarshal members work on name-to-specifier maps, and DependencySets.DependencySet.Unmarshal and ResolvedDependencies.Unmarshal take the entry parser as a parameter.
- Disk, git and network work is recorded as an effect log or passed in as a parameter: cloning, fetching, checkout, copying packages, removing ahkpm-modules, and loading and saving the lockfile. SHA lookup is the parameter `headOf`. The tag listing and the lockfile load are `Result` parameters.
- Process exit (`utils.Exit`) and the `Get` panic are modelled as error outcomes.
- The semver constraint library is a parameter. Its "satisfies" check and precedence are fields of `SemVerLibrary`, and precedence is assumed to be a strict order. `StrictNewVersion` is modelled as `IsSemVer`, and a version's `String()` is assumed to give back its tag.
- PackagesRepositories.Latest: the source sorts the matches and takes the last one. The model scans for a maximum instead, so among candidates equal in precedence (tags differing only in build metadata) it does not say which one is chosen.
- ResolvedDependencyTrees.EnsureInstallPaths: `TreeNode.Map` is not part of this model. The model assumes that it applies the callback to every node of a root's subtree, with each node's `Parent` links set, and writes that as `Stamp([], root)` for each root. If it applied the callback to the root alone, or before the parent links were set, the install paths would be different. ResolvedDependencyTrees.Map takes the per-root image as a parameter.
- `TreeNode.AddChild` is not part of this model. The rebuild assumes it appends the child after the existing children.
- `utils.IsSemVerRange` is not part of this model. It is a parameter of the version parser.
- `utils.RightPad` is not part of this model. The table builders take it as a parameter. The layout lemmas (`ColumnsAligned`, `Grid`, `LineCount`) assume it pads as the commands' tests show.
- `DependencySet.Contains` is not part of this model.
- `TreeNode.WithParent` and the `Parent` pointers are not modelled. Ancestor names are passed down instead.
- ResolvedDependencyTreeBuild.FromArray: when an entry's ancestors are missing, the source's loop never ends. The model returns `None`, and `Update` turns that into an error.
- FindByNamesPath and ReplaceByNamesPath work on sequence values. The source writes through shared slices and child pointers. SortAllByNames copies the children into a fresh array before sorting them.
- ResolvedDependencyTrees.Merge: the source also overwrites matched roots in the caller's slice, since it shares the backing array. The model returns a new sequence and does not capture that aliasing.
- DependencyResolvers.Resolve models the resolver source as shown, which is older than its tests expect. It takes the repository as a function.
- The interactive prompt loops of `init` are not modelled. Neither are the git, glob and environment defaults, or `validateUrl` and `validateEmail`, which are library calls.
- The search command's HTTP query and JSON decoding are not modelled. The table is built from the response items.
- The global `DefaultServiceLocator` is passed as a parameter.
- Lengths are counted in characters. Go counts bytes, so non-ASCII names would give different column widths.

## Findings

| source | as written | input that shows it | evidently intended | confidence | as-written member | corrected member |
|---|---|---|---|---|---|---|
| src/cmd/list.go:44-46 | rows are listed in the order `AsArray` returns, which is Go's randomised map iteration order, while src/cmd/list_test.go:11-23 expects one fixed output | the set {github.com/a/a @ 1.0.0, github.com/abc/abc @ branch:main} of the test: both row orders are possible and give different outputs | rows in name order, so the output is determined by the set | not executed | ListCommand.OutputDependsOnMapOrder | ListCommand.GetSortedDependenciesForDisplay |
