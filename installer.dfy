/**
 * `Installer`: the `install` and `update` commands. The work they do on
 * disk and over the network is recorded as a log of effects, in the order
 * the source performs it; the resolver, the lockfile on disk and the
 * package copier are parameters.
 */
module Installers {
  import opened Wrappers
  import opened TreeNodes
  import opened Dependencies
  import opened DependencySets
  import opened ResolvedDependencies
  import opened ResolvedDependencyTrees
  import ResolvedDependencyTreeBuild
  import ResolvedDependencyTreeSort
  import LockManifests

  type LockManifest = LockManifests.LockManifest

  datatype Effect =
    | ResolveDependencies(deps: map<string, Dependency>) // the resolver was consulted for `deps`
    | RemoveModules                                      // the ahkpm-modules directory was emptied
    | CopyPackage(dep: ResolvedDependency, path: string) // a package was copied to `path`
    | SaveLockfile(lm: LockManifest)                     // ahkpm.lock was written

  /** The resolver the commands use: from a dependency set to the resolved forest. */
  type Resolver = map<string, Dependency> -> Result<seq<Node>>

  /** The packages repository's `CopyPackage(dep, dep.InstallPath)`: its error, if any. */
  type Copier = ResolvedDependency -> Option<string>

  // ---- copying packages ----

  /** The entries a copy loop reaches: all of them, or up to and including the first whose copy fails. */
  function Attempted(entries: seq<ResolvedDependency>, copy: Copier): (r: seq<ResolvedDependency>)
    ensures |r| <= |entries| && r == entries[..|r|]
  {
    if |entries| == 0 then []
    else if copy(entries[0]).Some? then [entries[0]]
    else [entries[0]] + Attempted(entries[1..], copy)
  }

  /** The error of the first entry whose copy fails. */
  function CopyFailure(entries: seq<ResolvedDependency>, copy: Copier): (r: Option<string>)
    ensures r.None? <==> forall k :: 0 <= k < |entries| ==> copy(entries[k]).None?
  {
    if |entries| == 0 then None
    else if copy(entries[0]).Some? then copy(entries[0])
    else
      var r := CopyFailure(entries[1..], copy);
      assert forall k :: 1 <= k < |entries| ==> entries[k] == entries[1..][k - 1];
      r
  }

  /** The effects of copying each entry to its own install path. */
  function Copies(entries: seq<ResolvedDependency>): (r: seq<Effect>)
    ensures |r| == |entries|
    ensures forall k :: 0 <= k < |entries| ==> r[k] == CopyPackage(entries[k], entries[k].installPath)
  {
    seq(|entries|, k requires 0 <= k < |entries| => CopyPackage(entries[k], entries[k].installPath))
  }

  /**
   * Copies each entry to its install path, in order, and stops at the first
   * failure (the callers exit or return that error).
   */
  method CopyEach(entries: seq<ResolvedDependency>, copy: Copier) returns (effects: seq<Effect>, err: Option<string>)
    ensures effects == Copies(Attempted(entries, copy))
    ensures err == CopyFailure(entries, copy)
  {
    effects := [];
    for i := 0 to |entries|
      invariant forall k :: 0 <= k < i ==> copy(entries[k]).None?
      invariant effects == Copies(entries[..i])
    {
      var resolvedDep := entries[i];
      effects := effects + [CopyPackage(resolvedDep, resolvedDep.installPath)];
      err := copy(resolvedDep);
      if err.Some? {
        AttemptedUpTo(entries, copy, i);
        return;
      }
    }
    AttemptedUpTo(entries, copy, |entries|);
    err := None;
  }

  /** When the copies of `entries[..i]` succeed, the loop reaches them and whatever comes after. */
  lemma {:induction false} AttemptedUpTo(entries: seq<ResolvedDependency>, copy: Copier, i: nat)
    requires i <= |entries|
    requires forall k :: 0 <= k < i ==> copy(entries[k]).None?
    ensures i == |entries| ==> Attempted(entries, copy) == entries && CopyFailure(entries, copy).None?
    ensures i < |entries| && copy(entries[i]).Some? ==>
              Attempted(entries, copy) == entries[..i + 1] && CopyFailure(entries, copy) == copy(entries[i])
    decreases i
  {
    if i > 0 {
      var rest := entries[1..];
      assert forall k :: 0 <= k < i - 1 ==> rest[k] == entries[k + 1];
      AttemptedUpTo(rest, copy, i - 1);
      assert entries == [entries[0]] + rest;
      if i < |entries| {
        assert entries[..i + 1] == [entries[0]] + rest[..i];
      }
    }
  }

  /**
   * Copying the flattened forest fails exactly where `ForEach` with the copy
   * callback stops: the commands copy the nodes in `ForEach`'s order.
   */
  lemma CopiesFollowForEach(roots: seq<Node>, copy: Copier)
    ensures CopyFailure(FlattenEach(roots), copy) == TreeNodes.ForEachChild(roots, (n: Node) => copy(n.value))
    ensures Attempted(FlattenEach(roots), copy) == Values(UpToFirstError(NodesEach(roots), (n: Node) => copy(n.value)))
  {
    var callback := (n: Node) => copy(n.value);
    FlattenEachIsPreOrder(roots);
    ForEachChildIsPreOrder(roots, callback);
    CopyAlongNodes(NodesEach(roots), copy);
  }

  lemma {:induction false} CopyAlongNodes(ns: seq<Node>, copy: Copier)
    ensures CopyFailure(Values(ns), copy) == FirstError(ns, (n: Node) => copy(n.value))
    ensures Attempted(Values(ns), copy) == Values(UpToFirstError(ns, (n: Node) => copy(n.value)))
  {
    if |ns| > 0 {
      CopyAlongNodes(ns[1..], copy);
      assert Values(ns)[1..] == Values(ns[1..]);
      ValuesAppend([ns[0]], UpToFirstError(ns[1..], (n: Node) => copy(n.value)));
    }
  }

  // ---- Install ----

  /** The lockfile the commands save: a dependency set and the flattened forest. */
  function InstalledLockfile(deps: map<string, Dependency>, tree: seq<Node>): LockManifest {
    LockManifests.LockManifest("1", deps, FlattenEach(tree))
  }

  /** `Install` trusts the lockfile when it loads and records exactly the requested dependency set. */
  predicate TrustsLockfile(deps: map<string, Dependency>, lockfile: Result<LockManifest>) {
    lockfile.Ok? && SetEquals(deps, lockfile.value.dependencies)
  }

  /**
   * `Installer.Install`: copies the lockfile's packages when the lockfile
   * matches the request; otherwise resolves, empties ahkpm-modules, copies
   * every resolved package in pre-order and saves a new lockfile. An error
   * ends the process in the source; here it is `exitMessage`.
   */
  method Install(deps: map<string, Dependency>, lockfile: Result<LockManifest>, resolve: Resolver, copy: Copier)
    returns (effects: seq<Effect>, exitMessage: Option<string>)
    ensures TrustsLockfile(deps, lockfile) ==>
              effects == [RemoveModules] + Copies(Attempted(lockfile.value.resolved, copy))
              && exitMessage == CopyFailure(lockfile.value.resolved, copy)
    ensures !TrustsLockfile(deps, lockfile) && resolve(deps).Err? ==>
              effects == [ResolveDependencies(deps)] && exitMessage == Some(resolve(deps).error)
    ensures !TrustsLockfile(deps, lockfile) && resolve(deps).Ok? ==>
              var entries := FlattenEach(resolve(deps).value);
              exitMessage == CopyFailure(entries, copy)
              && effects == [ResolveDependencies(deps), RemoveModules] + Copies(Attempted(entries, copy))
                            + (if exitMessage.None? then [SaveLockfile(InstalledLockfile(deps, resolve(deps).value))] else [])
  {
    if lockfile.Ok? && SetEquals(deps, lockfile.value.dependencies) {
      var copies;
      copies, exitMessage := CopyEach(lockfile.value.resolved, copy);
      effects := [RemoveModules] + copies;
      return;
    }
    effects := [ResolveDependencies(deps)];
    var resolvedDepTree := resolve(deps);
    if resolvedDepTree.Err? {
      exitMessage := Some(resolvedDepTree.error);
      return;
    }
    var installed;
    installed, exitMessage := InstallForest(deps, resolvedDepTree.value, copy);
    effects := effects + installed;
  }

  /**
   * The common end of `Install` and `Update`: empties ahkpm-modules, copies
   * every node of the forest in pre-order, and on success saves a new
   * lockfile holding `deps` and the flattened forest.
   */
  method InstallForest(deps: map<string, Dependency>, tree: seq<Node>, copy: Copier)
    returns (effects: seq<Effect>, err: Option<string>)
    ensures err == CopyFailure(FlattenEach(tree), copy)
    ensures effects == [RemoveModules] + Copies(Attempted(FlattenEach(tree), copy))
                       + (if err.None? then [SaveLockfile(InstalledLockfile(deps, tree))] else [])
  {
    effects := [RemoveModules];
    var entries := ResolvedDependencyTrees.Flatten(tree);
    var copies;
    copies, err := CopyEach(entries, copy);
    effects := effects + copies;
    if err.Some? {
      return;
    }
    var lm := LockManifests.WithDependencies(LockManifests.NewLockManifest(), deps);
    lm := LockManifests.WithResolved(lm, tree);
    effects := effects + [SaveLockfile(lm)];
  }

  // ---- Update: choosing the packages ----

  /** Every requested name, canonicalised, is a dependency of the manifest. */
  predicate AllPresent(packageNames: seq<string>, currentDeps: map<string, Dependency>) {
    forall k :: 0 <= k < |packageNames| ==> Canonicalize(packageNames[k]) in currentDeps
  }

  /** `packageNames[i]` is the first requested name the manifest lacks. */
  predicate FirstMissing(packageNames: seq<string>, currentDeps: map<string, Dependency>, i: int) {
    0 <= i < |packageNames| && Canonicalize(packageNames[i]) !in currentDeps
    && AllPresent(packageNames[..i], currentDeps)
  }

  function MissingMessage(packageName: string): string {
    "Cannot update " + packageName + ". It is not present in ahkpm.json"
  }

  const MultipleVersionsMessage: string := "Cannot update multiple versions of the same package"

  /** The manifest's dependency for each requested name, in request order. */
  function Requested(packageNames: seq<string>, currentDeps: map<string, Dependency>): (r: seq<Dependency>)
    requires AllPresent(packageNames, currentDeps)
    ensures |r| == |packageNames|
    ensures forall k :: 0 <= k < |r| ==> r[k] == currentDeps[Canonicalize(packageNames[k])]
  {
    seq(|packageNames|, k requires 0 <= k < |packageNames| => currentDeps[Canonicalize(packageNames[k])])
  }

  /** The set `AddDependency` builds from a list: each entry under its name, the last one of a name winning. */
  function AddAll(m: map<string, Dependency>, deps: seq<Dependency>): (r: map<string, Dependency>)
    ensures r.Keys == m.Keys + (set k | 0 <= k < |deps| :: deps[k].name)
  {
    if |deps| == 0 then m
    else
      var init := deps[..|deps| - 1];
      var r := AddAll(m, init)[deps[|deps| - 1].name := deps[|deps| - 1]];
      assert (set k | 0 <= k < |deps| :: deps[k].name)
             == (set k | 0 <= k < |init| :: init[k].name) + {deps[|deps| - 1].name} by {
        assert forall k :: 0 <= k < |init| ==> init[k] == deps[k];
      }
      r
  }

  /** The dependency set `Update` resolves. */
  function Selected(packageNames: seq<string>, currentDeps: map<string, Dependency>): map<string, Dependency>
    requires AllPresent(packageNames, currentDeps)
  {
    AddAll(map[], Requested(packageNames, currentDeps))
  }

  /**
   * The first loop of `Update`: looks up each canonicalised name in the
   * manifest and adds its dependency to a new set; then rejects the request
   * when the set is smaller than the list of names.
   */
  method SelectForUpdate(packageNames: seq<string>, currentDeps: map<string, Dependency>)
    returns (r: Result<map<string, Dependency>>)
    ensures !AllPresent(packageNames, currentDeps) ==>
              exists i :: FirstMissing(packageNames, currentDeps, i)
                          && r == Err(MissingMessage(Canonicalize(packageNames[i])))
    ensures AllPresent(packageNames, currentDeps) ==>
              var selected := Selected(packageNames, currentDeps);
              r == if |selected| == |packageNames| then Ok(selected) else Err(MultipleVersionsMessage)
  {
    var depsToUpdate := new DependencySet();
    for i := 0 to |packageNames|
      invariant AllPresent(packageNames[..i], currentDeps)
      invariant depsToUpdate.entries == AddAll(map[], Requested(packageNames[..i], currentDeps))
    {
      var packageName := Canonicalize(packageNames[i]);
      if packageName !in currentDeps {
        assert FirstMissing(packageNames, currentDeps, i);
        return Err(MissingMessage(packageName));
      }
      var dep := currentDeps[packageName];
      RequestedStep(packageNames, currentDeps, i);
      depsToUpdate.AddDependency(dep);
    }
    assert packageNames[..|packageNames|] == packageNames;
    if depsToUpdate.Len() != |packageNames| {
      return Err(MultipleVersionsMessage);
    }
    return Ok(depsToUpdate.AsMap());
  }

  /** One more name found in the manifest adds its dependency to the requested list. */
  lemma RequestedStep(packageNames: seq<string>, currentDeps: map<string, Dependency>, i: nat)
    requires i < |packageNames| && AllPresent(packageNames[..i], currentDeps)
    requires Canonicalize(packageNames[i]) in currentDeps
    ensures AllPresent(packageNames[..i + 1], currentDeps)
    ensures Requested(packageNames[..i + 1], currentDeps)
            == Requested(packageNames[..i], currentDeps) + [currentDeps[Canonicalize(packageNames[i])]]
  {
    assert packageNames[..i + 1] == packageNames[..i] + [packageNames[i]];
  }

  /** The distinct strings of a list. */
  ghost function Elements(s: seq<string>): set<string> {
    set k | 0 <= k < |s| :: s[k]
  }

  predicate Distinct(s: seq<string>) {
    forall i, j :: 0 <= i < j < |s| ==> s[i] != s[j]
  }

  /** The elements of a list are as many as its length exactly when they are distinct. */
  lemma {:induction false} DistinctElements(s: seq<string>)
    ensures |Elements(s)| <= |s|
    ensures |Elements(s)| == |s| <==> Distinct(s)
  {
    if |s| > 0 {
      var init := s[..|s| - 1];
      DistinctElements(init);
      ElementsSnoc(s);
      if s[|s| - 1] in Elements(init) {
        RepeatedLast(s);
      } else {
        DistinctSnoc(s);
      }
    }
  }

  lemma ElementsSnoc(s: seq<string>)
    requires |s| > 0
    ensures Elements(s) == Elements(s[..|s| - 1]) + {s[|s| - 1]}
  {
    var init := s[..|s| - 1];
    assert forall k :: 0 <= k < |init| ==> init[k] == s[k];
  }

  lemma RepeatedLast(s: seq<string>)
    requires |s| > 0 && s[|s| - 1] in Elements(s[..|s| - 1])
    ensures !Distinct(s)
  {
    var init := s[..|s| - 1];
    var k :| 0 <= k < |init| && init[k] == s[|s| - 1];
    assert s[k] == s[|s| - 1];
  }

  lemma DistinctSnoc(s: seq<string>)
    requires |s| > 0 && s[|s| - 1] !in Elements(s[..|s| - 1])
    ensures Distinct(s) <==> Distinct(s[..|s| - 1])
  {
    var init := s[..|s| - 1];
    assert forall k :: 0 <= k < |init| ==> init[k] == s[k] && s[k] != s[|s| - 1];
  }

  /**
   * With a manifest that keys each dependency by its name, `Update`
   * rejects a request exactly when two requested names canonicalise to
   * the same package.
   */
  lemma UpdateRejectsDuplicates(packageNames: seq<string>, currentDeps: map<string, Dependency>)
    requires AllPresent(packageNames, currentDeps) && KeyedByName(currentDeps)
    ensures |Selected(packageNames, currentDeps)| != |packageNames|
            <==> exists i, j :: 0 <= i < j < |packageNames| && Canonicalize(packageNames[i]) == Canonicalize(packageNames[j])
  {
    var canonical := seq(|packageNames|, k requires 0 <= k < |packageNames| => Canonicalize(packageNames[k]));
    SelectedKeys(packageNames, currentDeps, canonical);
    DistinctElements(canonical);
    var selected := Selected(packageNames, currentDeps);
    assert |selected| == |selected.Keys|;
  }

  /** Under a manifest keyed by name, the chosen set is keyed by the canonical requested names. */
  lemma SelectedKeys(packageNames: seq<string>, currentDeps: map<string, Dependency>, canonical: seq<string>)
    requires AllPresent(packageNames, currentDeps) && KeyedByName(currentDeps)
    requires |canonical| == |packageNames| && forall k :: 0 <= k < |canonical| ==> canonical[k] == Canonicalize(packageNames[k])
    ensures AddAll(map[], Requested(packageNames, currentDeps)).Keys == Elements(canonical)
  {
    var requested := Requested(packageNames, currentDeps);
    assert forall k :: 0 <= k < |requested| ==> requested[k].name == canonical[k];
    assert (set k | 0 <= k < |requested| :: requested[k].name) == Elements(canonical);
  }

  // ---- Update: replacing roots ----

  /** What becomes of old root `i`: the last new root of its name, or itself when there is none. */
  function ReplacedRoot(oldRoots: seq<Node>, newRoots: seq<Node>, i: nat): Node
    requires i < |oldRoots|
  {
    match LastNamed(newRoots, oldRoots[i].value.name)
    case Some(j) => newRoots[j]
    case None => oldRoots[i]
  }

  function ReplacedRoots(oldRoots: seq<Node>, newRoots: seq<Node>): seq<Node> {
    seq(|oldRoots|, i requires 0 <= i < |oldRoots| => ReplacedRoot(oldRoots, newRoots, i))
  }

  /**
   * The nested loop of `Update`: each old root whose name matches a newly
   * resolved root is overwritten in place by it.
   */
  method ReplaceRoots(oldResolved: seq<Node>, newResolved: seq<Node>) returns (r: seq<Node>)
    ensures r == ReplacedRoots(oldResolved, newResolved)
  {
    r := oldResolved;
    for j := 0 to |newResolved|
      invariant r == ReplacedRoots(oldResolved, newResolved[..j])
    {
      var resolvedDepNode := newResolved[j];
      ReplaceStep(oldResolved, newResolved, j);
      for i := 0 to |r|
        invariant |r| == |oldResolved|
        invariant forall k :: 0 <= k < i ==> r[k] == ReplacedRoot(oldResolved, newResolved[..j + 1], k)
        invariant forall k :: i <= k < |r| ==> r[k] == ReplacedRoot(oldResolved, newResolved[..j], k)
      {
        if resolvedDepNode.value.name == r[i].value.name {
          r := r[i := resolvedDepNode];
        }
      }
    }
    assert newResolved[..|newResolved|] == newResolved;
  }

  /** One more new root overwrites exactly the old roots of its name. */
  lemma ReplaceStep(oldRoots: seq<Node>, newRoots: seq<Node>, j: nat)
    requires j < |newRoots|
    ensures forall k :: 0 <= k < |oldRoots| ==> ReplacedRoot(oldRoots, newRoots[..j], k).value.name == oldRoots[k].value.name
    ensures forall k :: 0 <= k < |oldRoots| ==>
              ReplacedRoot(oldRoots, newRoots[..j + 1], k)
              == if newRoots[j].value.name == oldRoots[k].value.name then newRoots[j]
                 else ReplacedRoot(oldRoots, newRoots[..j], k)
  {
    assert newRoots[..j + 1][..j] == newRoots[..j];
  }

  /**
   * Replacement keeps every root's name and position: old roots are
   * overwritten, roots without a new namesake stay, and no root is added.
   */
  lemma ReplacementKeepsRoots(oldRoots: seq<Node>, newRoots: seq<Node>)
    ensures |ReplacedRoots(oldRoots, newRoots)| == |oldRoots|
    ensures Names(ReplacedRoots(oldRoots, newRoots)) == Names(oldRoots)
    ensures forall i :: 0 <= i < |oldRoots| && oldRoots[i].value.name !in Names(newRoots) ==>
              ReplacedRoots(oldRoots, newRoots)[i] == oldRoots[i]
    ensures forall i :: 0 <= i < |oldRoots| && oldRoots[i].value.name in Names(newRoots) ==>
              ReplacedRoots(oldRoots, newRoots)[i] in newRoots
  {
    var r := ReplacedRoots(oldRoots, newRoots);
    assert forall i :: 0 <= i < |oldRoots| ==> r[i].value.name == oldRoots[i].value.name;
    assert Names(r) == Names(oldRoots) by {
      forall x | x in Names(oldRoots) ensures x in Names(r) {
        var k :| 0 <= k < |oldRoots| && oldRoots[k].value.name == x;
        assert r[k].value.name == x;
      }
    }
  }

  // ---- Update ----

  /** Update stops at a lockfile whose tree it cannot rebuild (the source never returns there). */
  const UnplacedEntryMessage: string := "ahkpm.lock lists a package whose dependers it does not list"

  /**
   * `Installer.Update`: chooses the packages to update, resolves them and
   * loads the lockfile; `ReplaceAndInstall` does the rest. `combined` is
   * the forest it installs.
   */
  method Update(packageNames: seq<string>, currentDeps: map<string, Dependency>, resolve: Resolver,
                lockfile: Result<LockManifest>, copy: Copier)
    returns (effects: seq<Effect>, err: Option<string>, ghost combined: seq<Node>)
    ensures !AllPresent(packageNames, currentDeps) ==>
              effects == [] && exists i :: FirstMissing(packageNames, currentDeps, i)
                                           && err == Some(MissingMessage(Canonicalize(packageNames[i])))
    ensures AllPresent(packageNames, currentDeps) ==>
              var selected := Selected(packageNames, currentDeps);
              if |selected| != |packageNames| then effects == [] && err == Some(MultipleVersionsMessage)
              else |effects| > 0 && effects[0] == ResolveDependencies(selected)
                   && (resolve(selected).Err? ==> effects == [ResolveDependencies(selected)] && err == Some(resolve(selected).error))
                   && (resolve(selected).Ok? && lockfile.Err? ==> |effects| == 1 && err == Some(lockfile.error))
                   && (resolve(selected).Ok? && lockfile.Ok? ==>
                         Replaced(lockfile.value, resolve(selected).value, copy, effects[1..], err, combined))
  {
    effects := [];
    combined := [];
    var selection := SelectForUpdate(packageNames, currentDeps);
    if selection.Err? {
      err := Some(selection.error);
      return;
    }
    var depsToUpdate := selection.value;
    effects := [ResolveDependencies(depsToUpdate)];
    var newResolvedDepTree := resolve(depsToUpdate);
    if newResolvedDepTree.Err? {
      err := Some(newResolvedDepTree.error);
      return;
    }
    if lockfile.Err? {
      err := Some(lockfile.error);
      return;
    }
    var rest;
    rest, err, combined := ReplaceAndInstall(lockfile.value, newResolvedDepTree.value, copy);
    effects := effects + rest;
  }

  /** The lockfile lists an entry whose dependers no entry provides, so its tree cannot be rebuilt. */
  ghost predicate Unplaceable(arr: seq<ResolvedDependency>) {
    exists d :: d in arr && ResolvedDependencyTreeBuild.Orphan(Dependers, arr, d)
  }

  /** `t` is the lockfile's forest as `ResolvedDependencyTreeFromArray` rebuilds it. */
  ghost predicate Rebuilt(arr: seq<ResolvedDependency>, t: seq<Node>) {
    ResolvedDependencyTreeBuild.Contents(t) == multiset(arr)
    && ResolvedDependencyTreeBuild.WellPlaced(Dependers, [], t)
    && ResolvedDependencyTreeSort.SortedDeep(t)
  }

  /**
   * What `Update` does once the lockfile is loaded, as its effects `effects`,
   * its outcome `err` and the forest `combined`. A lockfile whose tree
   * cannot be rebuilt stops it with no effect. Otherwise `combined` is the
   * rebuilt forest with its roots replaced by the new ones; a conflict in it
   * stops it with no effect and the first conflict's message, and a
   * conflict-free forest is installed: ahkpm-modules emptied, `combined`
   * copied in pre-order and the lockfile saved with the previous
   * dependency set.
   */
  ghost predicate Replaced(lm: LockManifest, newTree: seq<Node>, copy: Copier,
                           effects: seq<Effect>, err: Option<string>, combined: seq<Node>)
  {
    (Unplaceable(lm.resolved) ==> effects == [] && err == Some(UnplacedEntryMessage))
    && (!Unplaceable(lm.resolved) ==>
          (exists oldTree :: Rebuilt(lm.resolved, oldTree) && combined == ReplacedRoots(oldTree, newTree))
          && (!NoConflicts(FlattenEach(combined)) ==>
                effects == [] && err.Some? && ReportsFirstConflict(FlattenEach(combined), err.value))
          && (NoConflicts(FlattenEach(combined)) ==>
                err == CopyFailure(FlattenEach(combined), copy)
                && effects == [RemoveModules] + Copies(Attempted(FlattenEach(combined), copy))
                              + (if err.None? then [SaveLockfile(InstalledLockfile(lm.dependencies, combined))] else [])))
  }

  /**
   * The rest of `Update`: rebuilds the lockfile's forest, overwrites its
   * roots by the newly resolved roots of the same names, checks the result
   * for conflicts before touching ahkpm-modules, then installs it.
   */
  method ReplaceAndInstall(lm: LockManifest, newResolvedDepTree: seq<Node>, copy: Copier)
    returns (effects: seq<Effect>, err: Option<string>, ghost combined: seq<Node>)
    ensures Replaced(lm, newResolvedDepTree, copy, effects, err, combined)
  {
    effects := [];
    combined := [];
    var oldResolved := ResolvedDependencyTreeBuild.FromArray(lm.resolved);
    if oldResolved.None? {
      err := Some(UnplacedEntryMessage);
      return;
    }
    assert Rebuilt(lm.resolved, oldResolved.value);
    var replaced := ReplaceRoots(oldResolved.value, newResolvedDepTree);
    combined := replaced;
    err := CheckForConflicts(replaced);
    if err.Some? {
      return;
    }
    effects, err := InstallForest(lm.dependencies, replaced, copy);
  }
}
