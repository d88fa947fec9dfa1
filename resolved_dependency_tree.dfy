/**
 * `ResolvedDependencyTree`: the installed packages as a forest of
 * `TreeNode`s whose roots are the project's direct dependencies. A package
 * is installed below the packages that depend on it:
 * `ahkpm-modules/A/ahkpm-modules/B` holds `B`, a dependency of `A`. Go's
 * `Parent` links are replaced by the list of ancestor names, outermost
 * first, that a traversal carries down.
 */
module ResolvedDependencyTrees {
  import opened Wrappers
  import opened Strs
  import opened TreeNodes
  import opened ResolvedDependencies

  type Node = TreeNode<ResolvedDependency>

  // ---- Flatten, ForEach, Map ----

  /**
   * `Flatten`: each root's pre-order flattening, roots left to right
   * (`FlattenEachIsPreOrder` shows this lists the forest's nodes in pre-order).
   */
  method Flatten(roots: seq<Node>) returns (allDeps: seq<ResolvedDependency>)
    ensures allDeps == FlattenEach(roots)
  {
    allDeps := [];
    for i := 0 to |roots|
      invariant allDeps == FlattenEach(roots[..i])
    {
      assert roots[..i + 1][..i] == roots[..i];
      allDeps := allDeps + TreeNodes.Flatten(roots[i]);
    }
    assert roots[..|roots|] == roots;
  }

  /**
   * `ForEach`: walks the roots in turn with `TreeNode.ForEach` and returns
   * the first error; the walk is pre-order across the whole forest.
   */
  method ForEach<E>(roots: seq<Node>, callback: Node -> Option<E>) returns (err: Option<E>)
    ensures err == FirstError(NodesEach(roots), callback)
    ensures err == ForEachChild(roots, callback)
  {
    ForEachChildIsPreOrder(roots, callback);
    for i := 0 to |roots|
      invariant ForEachChild(roots, callback) == ForEachChild(roots[i..], callback)
    {
      assert roots[i..][1..] == roots[i + 1..];
      err := TreeNodes.ForEach(roots[i], callback);
      if err.Some? {
        return;
      }
    }
    err := None;
  }

  /**
   * `Map`: one new root per root, in order. `nodeMap` stands for
   * `TreeNode.Map(callback)` applied to one root.
   */
  method Map(roots: seq<Node>, nodeMap: Node -> Node) returns (newTree: seq<Node>)
    ensures |newTree| == |roots|
    ensures forall i :: 0 <= i < |roots| ==> newTree[i] == nodeMap(roots[i])
  {
    newTree := [];
    for i := 0 to |roots|
      invariant |newTree| == i
      invariant forall k :: 0 <= k < i ==> newTree[k] == nodeMap(roots[k])
    {
      newTree := newTree + [nodeMap(roots[i])];
    }
  }

  // ---- install paths ----

  const ModulesDir: string := "ahkpm-modules/"
  const Separator: string := "/ahkpm-modules/"

  /** Each ancestor name followed by "/ahkpm-modules/", outermost first. */
  function Prefixes(ancestors: seq<string>): string {
    if |ancestors| == 0 then "" else ancestors[0] + Separator + Prefixes(ancestors[1..])
  }

  /** Where a package named `name` below `ancestors` is installed. */
  function InstallPath(ancestors: seq<string>, name: string): string {
    ModulesDir + Prefixes(ancestors) + name
  }

  /**
   * `getRelativeInstallPath`: starting from the node's own name, prefixes
   * the name of each ancestor, nearest first, then "ahkpm-modules/".
   */
  method GetRelativeInstallPath(ancestors: seq<string>, name: string) returns (p: string)
    ensures p == InstallPath(ancestors, name)
  {
    var path := name;
    var k := |ancestors|;
    while k > 0
      invariant 0 <= k <= |ancestors|
      invariant path == Prefixes(ancestors[k..]) + name
    {
      k := k - 1;
      assert ancestors[k..][1..] == ancestors[k + 1..];
      path := ancestors[k] + Separator + path;
    }
    p := ModulesDir + path;
  }

  /** A root is installed at "ahkpm-modules/" + its name. */
  lemma RootInstallPath(name: string)
    ensures InstallPath([], name) == "ahkpm-modules/" + name
  {
  }

  /** A child's path is its parent's path, "/ahkpm-modules/", and its own name. */
  lemma {:induction false} ChildInstallPath(ancestors: seq<string>, parent: string, name: string)
    ensures InstallPath(ancestors + [parent], name) == InstallPath(ancestors, parent) + Separator + name
  {
    PrefixesAppend(ancestors, parent);
  }

  lemma {:induction false} PrefixesAppend(ancestors: seq<string>, parent: string)
    ensures Prefixes(ancestors + [parent]) == Prefixes(ancestors) + parent + Separator
  {
    if |ancestors| > 0 {
      assert (ancestors + [parent])[1..] == ancestors[1..] + [parent];
      PrefixesAppend(ancestors[1..], parent);
    } else {
      assert [parent][1..] == [];
    }
  }

  /** `EnsureInstallPaths`' callback applied throughout a root's subtree, with the ancestors' names carried down. */
  function Stamp(ancestors: seq<string>, n: Node): (r: Node)
    ensures |r.children| == |n.children|
    decreases n
  {
    var name := n.value.name;
    TreeNode(n.value.(installPath := InstallPath(ancestors, name)),
             seq(|n.children|, i requires 0 <= i < |n.children| => Stamp(ancestors + [name], n.children[i])))
  }

  /**
   * `EnsureInstallPaths`: `Map` with a callback that sets each node's
   * install path from its parents. `TreeNode.Map` is assumed to hand the
   * callback every node of the subtree with its parent links set.
   */
  method EnsureInstallPaths(roots: seq<Node>) returns (r: seq<Node>)
    ensures |r| == |roots|
    ensures forall i :: 0 <= i < |roots| ==> r[i] == Stamp([], roots[i])
  {
    r := Map(roots, n => Stamp([], n));
  }

  /** Every node of the subtree is installed at the path its ancestors give it. */
  predicate InstalledAt(ancestors: seq<string>, n: Node)
    decreases n
  {
    n.value.installPath == InstallPath(ancestors, n.value.name)
    && forall i :: 0 <= i < |n.children| ==> InstalledAt(ancestors + [n.value.name], n.children[i])
  }

  /** Two trees of the same shape whose values differ at most in their install paths. */
  predicate SameButPaths(a: Node, b: Node)
    decreases a
  {
    a.value.(installPath := "") == b.value.(installPath := "")
    && |a.children| == |b.children|
    && forall i :: 0 <= i < |a.children| ==> SameButPaths(a.children[i], b.children[i])
  }

  /** Stamping sets every install path, and changes nothing else. */
  lemma {:induction false} StampPlaces(ancestors: seq<string>, n: Node)
    ensures InstalledAt(ancestors, Stamp(ancestors, n))
    ensures SameButPaths(Stamp(ancestors, n), n)
    decreases n
  {
    var r := Stamp(ancestors, n);
    forall i | 0 <= i < |n.children|
      ensures InstalledAt(ancestors + [n.value.name], r.children[i])
      ensures SameButPaths(r.children[i], n.children[i])
    {
      StampPlaces(ancestors + [n.value.name], n.children[i]);
    }
  }

  /** A tree whose paths are already right is left as it is, so stamping twice is stamping once. */
  lemma {:induction false} StampKeepsPlacedTree(ancestors: seq<string>, n: Node)
    requires InstalledAt(ancestors, n)
    ensures Stamp(ancestors, n) == n
    decreases n
  {
    var r := Stamp(ancestors, n);
    forall i | 0 <= i < |n.children| ensures r.children[i] == n.children[i] {
      StampKeepsPlacedTree(ancestors + [n.value.name], n.children[i]);
    }
    assert r.children == n.children;
  }

  lemma StampIdempotent(ancestors: seq<string>, n: Node)
    ensures Stamp(ancestors, Stamp(ancestors, n)) == Stamp(ancestors, n)
  {
    StampPlaces(ancestors, n);
    StampKeepsPlacedTree(ancestors, Stamp(ancestors, n));
  }

  // ---- reading an install path back ----

  /**
   * The depender names `ResolvedDependencyTreeFromArray` derives from an
   * install path: drop "ahkpm-modules/" + name at the end, "ahkpm-modules/"
   * at the front and one "/" at the end, split on "/ahkpm-modules/", and
   * read a lone empty part as no dependers.
   */
  function DependerNames(installPath: string, name: string): seq<string> {
    var pathWithoutSelf := TrimSuffix(installPath, ModulesDir + name);
    var pathWithoutPrefix := TrimPrefix(pathWithoutSelf, ModulesDir);
    var pathWithoutEndingSlash := TrimSuffix(pathWithoutPrefix, "/");
    var dependerNames := Split(pathWithoutEndingSlash, Separator);
    if |dependerNames| == 1 && dependerNames[0] == "" then [] else dependerNames
  }

  /** The names a lockfile entry claims as its dependers. */
  function Dependers(d: ResolvedDependency): seq<string> {
    DependerNames(d.installPath, d.name)
  }

  /** A name that "/ahkpm-modules/" can be split off cleanly: it holds no part of the separator. */
  predicate CleanName(a: string) {
    a != "" && SeparatedCleanly(a, Separator)
  }

  lemma {:induction false} PrefixesJoin(ancestors: seq<string>)
    requires |ancestors| >= 1
    ensures Prefixes(ancestors) == Join(ancestors, Separator) + Separator
  {
    if |ancestors| > 1 {
      PrefixesJoin(ancestors[1..]);
    } else {
      assert ancestors[1..] == [];
    }
  }

  /** The path of a root reads back as no dependers. */
  lemma RootPathReadsBack(name: string)
    ensures DependerNames(InstallPath([], name), name) == []
  {
    var path := InstallPath([], name);
    assert path == "" + (ModulesDir + name);
    assert TrimSuffix(path, ModulesDir + name) == "";
    assert Index("", Separator).None?;
  }

  /** With a non-empty path of dependers, the trimmed path is their names joined by the separator. */
  lemma {:induction false} TrimmedPath(ancestors: seq<string>, name: string)
    requires |ancestors| >= 1
    ensures var path := InstallPath(ancestors, name);
            TrimSuffix(TrimPrefix(TrimSuffix(path, ModulesDir + name), ModulesDir), "/")
            == Join(ancestors, Separator)
  {
    var j := Join(ancestors, Separator);
    PrefixesJoin(ancestors);
    SeparatorText();
    var path := InstallPath(ancestors, name);
    assert path == (ModulesDir + (j + "/")) + (ModulesDir + name);
    TrimSuffixOf(ModulesDir + (j + "/"), ModulesDir + name);
    TrimPrefixOf(ModulesDir, j + "/");
    TrimSuffixOf(j, "/");
  }

  lemma SeparatorText()
    ensures Separator == "/" + ModulesDir
  {
  }

  /** An install path reads back as the ancestor names it was built from, when every name is clean. */
  lemma InstallPathRoundTrip(ancestors: seq<string>, name: string)
    requires forall i :: 0 <= i < |ancestors| ==> CleanName(ancestors[i])
    ensures DependerNames(InstallPath(ancestors, name), name) == ancestors
  {
    if |ancestors| == 0 {
      RootPathReadsBack(name);
    } else {
      TrimmedPath(ancestors, name);
      SplitJoin(ancestors, Separator);
    }
  }

  /** With one depender, the trimmed path is that depender's name. */
  lemma OneDependerPath(a: string, name: string)
    ensures DependerNames(InstallPath([a], name), name)
         == var parts := Split(a, Separator); if |parts| == 1 && parts[0] == "" then [] else parts
  {
    TrimmedPath([a], name);
  }

  /** A name without '/' is clean: every occurrence of the separator starts with '/'. */
  lemma NoSlashIsClean(a: string)
    requires a != "" && '/' !in a
    ensures CleanName(a)
  {
    forall k | 0 <= k < |a| ensures !OccursAt(a + Separator, Separator, k) {
      assert (a + Separator)[k] == a[k];
    }
  }

  /** A depender name made of two clean names around the separator reads back as those two names. */
  lemma {:induction false} SeparatorInsideName(p: string, q: string, name: string)
    requires CleanName(p) && CleanName(q)
    ensures DependerNames(InstallPath([p + Separator + q], name), name) == [p, q]
  {
    OneDependerPath(p + Separator + q, name);
    assert p + Separator + q == Join([p, q], Separator) by {
      assert [p, q][1..] == [q];
    }
    SplitJoin([p, q], Separator);
  }

  /**
   * A valid dependency name whose owner is called "ahkpm-modules", such as
   * "github.com/ahkpm-modules/x", does not read back: its dependents claim
   * two dependers, "github.com" and "x".
   */
  lemma OwnerNamedModulesSplits(name: string)
    ensures DependerNames(InstallPath(["github.com" + Separator + "x"], name), name) == ["github.com", "x"]
  {
    NoSlashIsClean("github.com");
    NoSlashIsClean("x");
    SeparatorInsideName("github.com", "x", name);
  }

  // ---- Merge ----

  function Names(t: seq<Node>): set<string> {
    set k | 0 <= k < |t| :: t[k].value.name
  }

  /** The last index of a root named `name`. */
  function LastNamed(t: seq<Node>, name: string): (r: Option<nat>)
    ensures r.Some? ==> r.value < |t| && t[r.value].value.name == name
                        && forall k :: r.value < k < |t| ==> t[k].value.name != name
    ensures r.None? <==> name !in Names(t)
  {
    if |t| == 0 then None
    else if t[|t| - 1].value.name == name then Some(|t| - 1)
    else
      var r := LastNamed(t[..|t| - 1], name);
      assert Names(t) == Names(t[..|t| - 1]) + {t[|t| - 1].value.name};
      r
  }

  /** The incoming roots whose name no base root has, in incoming order. */
  function Unmatched(r: seq<Node>, other: seq<Node>): (u: seq<Node>)
    ensures forall k :: 0 <= k < |u| ==> u[k] in other && u[k].value.name !in Names(r)
  {
    if |other| == 0 then []
    else
      var last := other[|other| - 1];
      Unmatched(r, other[..|other| - 1]) + (if last.value.name in Names(r) then [] else [last])
  }

  /**
   * What becomes of base root `i`: the map from name to index keeps the
   * last index of each name, so only that root can be overwritten, by the
   * last incoming root of its name.
   */
  function MergedRoot(r: seq<Node>, other: seq<Node>, i: nat): Node
    requires i < |r|
  {
    match LastNamed(other, r[i].value.name)
    case Some(j) => if LastNamed(r, r[i].value.name) == Some(i) then other[j] else r[i]
    case None => r[i]
  }

  function Merged(r: seq<Node>, other: seq<Node>): seq<Node> {
    seq(|r|, i requires 0 <= i < |r| => MergedRoot(r, other, i)) + Unmatched(r, other)
  }

  /**
   * `Merge`: indexes the base roots by name, then overwrites the root of
   * each incoming root's name or appends the incoming root.
   */
  method Merge(r: seq<Node>, other: seq<Node>) returns (merged: seq<Node>)
    ensures merged == Merged(r, other)
  {
    var rMapToIndex := IndexRootsByName(r);
    MergeEmpty(r, other);
    merged := r;
    for j := 0 to |other|
      invariant merged == Merged(r, other[..j])
    {
      merged := MergeRoot(r, other, j, rMapToIndex, merged);
    }
    assert other[..|other|] == other;
  }

  /** The body of `Merge`'s second loop: places incoming root `other[j]`. */
  method MergeRoot(r: seq<Node>, other: seq<Node>, j: nat, rMapToIndex: map<string, nat>, merged: seq<Node>)
    returns (next: seq<Node>)
    requires j < |other| && merged == Merged(r, other[..j])
    requires forall n :: n in rMapToIndex <==> LastNamed(r, n).Some?
    requires forall n :: n in rMapToIndex ==> LastNamed(r, n) == Some(rMapToIndex[n])
    ensures next == Merged(r, other[..j + 1])
  {
    MergedGrows(r, other, j);
    var depNode := other[j];
    if depNode.value.name in rMapToIndex {
      var i := rMapToIndex[depNode.value.name];
      assert LastNamed(r, depNode.value.name) == Some(i);
      next := merged[i := depNode];
    } else {
      assert LastNamed(r, depNode.value.name) == None;
      next := merged + [depNode];
    }
  }

  /**
   * One more incoming root either overwrites the last base root of its name
   * or, when the base has none, is appended.
   */
  lemma MergedGrows(r: seq<Node>, other: seq<Node>, j: nat)
    requires j < |other|
    ensures match LastNamed(r, other[j].value.name)
            case Some(i) => Merged(r, other[..j + 1]) == Merged(r, other[..j])[i := other[j]]
            case None => Merged(r, other[..j + 1]) == Merged(r, other[..j]) + [other[j]]
  {
    MergeStep(r, other, j);
    match LastNamed(r, other[j].value.name)
    case Some(i) => MergedOverwrites(r, other[..j], other[..j + 1], other[j], i);
    case None => MergedAppends(r, other[..j], other[..j + 1], other[j]);
  }

  lemma MergedOverwrites(r: seq<Node>, before: seq<Node>, after: seq<Node>, x: Node, i: nat)
    requires LastNamed(r, x.value.name) == Some(i)
    requires forall k :: 0 <= k < |r| ==>
               MergedRoot(r, after, k)
               == (if x.value.name == r[k].value.name && LastNamed(r, r[k].value.name) == Some(k)
                   then x else MergedRoot(r, before, k))
    requires Unmatched(r, after) == Unmatched(r, before)
    ensures Merged(r, after) == Merged(r, before)[i := x]
  {
  }

  lemma MergedAppends(r: seq<Node>, before: seq<Node>, after: seq<Node>, x: Node)
    requires LastNamed(r, x.value.name) == None
    requires forall k :: 0 <= k < |r| ==>
               MergedRoot(r, after, k)
               == (if x.value.name == r[k].value.name && LastNamed(r, r[k].value.name) == Some(k)
                   then x else MergedRoot(r, before, k))
    requires Unmatched(r, after) == Unmatched(r, before) + [x]
    ensures Merged(r, after) == Merged(r, before) + [x]
  {
  }

  /** The first loop of `Merge`: each root name mapped to the index of its last root. */
  method IndexRootsByName(r: seq<Node>) returns (rMapToIndex: map<string, nat>)
    ensures forall n :: n in rMapToIndex <==> LastNamed(r, n).Some?
    ensures forall n :: n in rMapToIndex ==> LastNamed(r, n) == Some(rMapToIndex[n])
  {
    rMapToIndex := map[];
    for i := 0 to |r|
      invariant forall n :: n in rMapToIndex <==> LastNamed(r[..i], n).Some?
      invariant forall n :: n in rMapToIndex ==> LastNamed(r[..i], n) == Some(rMapToIndex[n])
    {
      LastNamedStep(r, i);
      rMapToIndex := rMapToIndex[r[i].value.name := i];
    }
    assert r[..|r|] == r;
  }

  /** One more base root is the last of its name and hides no other name. */
  lemma LastNamedStep(r: seq<Node>, i: nat)
    requires i < |r|
    ensures forall n :: LastNamed(r[..i + 1], n)
                        == if n == r[i].value.name then Some(i) else LastNamed(r[..i], n)
  {
    var s := r[..i + 1];
    assert s[..|s| - 1] == r[..i];
    assert s[|s| - 1] == r[i];
    forall n
      ensures LastNamed(s, n) == if n == r[i].value.name then Some(i) else LastNamed(r[..i], n)
    {
    }
  }

  /** How one more incoming root changes each base root's fate and the appended roots. */
  lemma MergeStep(r: seq<Node>, other: seq<Node>, j: nat)
    requires j < |other|
    ensures forall i :: 0 <= i < |r| ==>
              MergedRoot(r, other[..j + 1], i)
              == (if other[j].value.name == r[i].value.name && LastNamed(r, r[i].value.name) == Some(i)
                  then other[j] else MergedRoot(r, other[..j], i))
    ensures Unmatched(r, other[..j + 1])
         == Unmatched(r, other[..j]) + (if other[j].value.name in Names(r) then [] else [other[j]])
  {
    var init := other[..j + 1];
    assert init[..j] == other[..j];
    LastNamedStep(other, j);
    forall i | 0 <= i < |r|
      ensures MergedRoot(r, init, i)
              == (if other[j].value.name == r[i].value.name && LastNamed(r, r[i].value.name) == Some(i)
                  then other[j] else MergedRoot(r, other[..j], i))
    {
    }
  }

  /** Base roots whose name no incoming root has keep their value and index. */
  lemma MergeKeepsOtherRoots(r: seq<Node>, other: seq<Node>, i: nat)
    requires i < |r| && r[i].value.name !in Names(other)
    ensures Merged(r, other)[i] == r[i]
  {
  }

  /** The merged roots carry exactly the names of both forests. */
  lemma MergeNames(r: seq<Node>, other: seq<Node>)
    ensures Names(Merged(r, other)) == Names(r) + Names(other)
  {
    MergeNamesKept(r, other);
    MergeNamesFrom(r, other);
  }

  lemma MergeNamesKept(r: seq<Node>, other: seq<Node>)
    ensures Names(r) + Names(other) <= Names(Merged(r, other))
  {
    var m := Merged(r, other);
    var u := Unmatched(r, other);
    forall n | n in Names(r) + Names(other) ensures n in Names(m) {
      if n in Names(r) {
        var i := LastNamed(r, n).value;
        assert m[i].value.name == n;
      } else {
        var j := LastNamed(other, n).value;
        UnmatchedHolds(r, other, j);
        var k :| 0 <= k < |u| && u[k] == other[j];
        assert m[|r| + k] == u[k];
      }
    }
  }

  lemma MergeNamesFrom(r: seq<Node>, other: seq<Node>)
    ensures Names(Merged(r, other)) <= Names(r) + Names(other)
  {
    var m := Merged(r, other);
    var u := Unmatched(r, other);
    forall n | n in Names(m) ensures n in Names(r) + Names(other) {
      var k :| 0 <= k < |m| && m[k].value.name == n;
      if k < |r| {
        match LastNamed(other, r[k].value.name)
        case Some(j) =>
        case None =>
      } else {
        assert m[k] == u[k - |r|];
        var j :| 0 <= j < |other| && other[j] == u[k - |r|];
      }
    }
  }

  /** An incoming root whose name is new to the base forest is kept. */
  lemma {:induction false} UnmatchedHolds(r: seq<Node>, other: seq<Node>, j: nat)
    requires j < |other| && other[j].value.name !in Names(r)
    ensures other[j] in Unmatched(r, other)
  {
    var init := other[..|other| - 1];
    if j < |other| - 1 {
      UnmatchedHolds(r, init, j);
    }
  }

  /** Merging nothing changes nothing; merging into nothing takes the incoming roots. */
  lemma MergeEmpty(r: seq<Node>, other: seq<Node>)
    ensures Merged(r, []) == r
    ensures Merged([], other) == other
  {
    UnmatchedAllNew([], other);
  }

  /** Incoming roots whose names are all new to the base forest are all appended. */
  lemma {:induction false} UnmatchedAllNew(r: seq<Node>, other: seq<Node>)
    requires forall k :: 0 <= k < |other| ==> other[k].value.name !in Names(r)
    ensures Unmatched(r, other) == other
  {
    if |other| > 0 {
      var init := other[..|other| - 1];
      UnmatchedAllNew(r, init);
      assert other == init + [other[|other| - 1]];
    }
  }

  /** With distinct root names on both sides, every incoming root ends up in the merged forest. */
  lemma MergeKeepsIncoming(r: seq<Node>, other: seq<Node>, j: nat)
    requires DistinctRootNames(r) && DistinctRootNames(other) && j < |other|
    ensures other[j] in Merged(r, other)
  {
    var n := other[j].value.name;
    var m := Merged(r, other);
    if n in Names(r) {
      var i := LastNamed(r, n).value;
      assert LastNamed(other, n) == Some(j);
      assert m[i] == other[j];
    } else {
      UnmatchedHolds(r, other, j);
      var u := Unmatched(r, other);
      var k :| 0 <= k < |u| && u[k] == other[j];
      assert m[|r| + k] == u[k];
    }
  }

  predicate DistinctRootNames(t: seq<Node>) {
    forall i, j :: 0 <= i < j < |t| ==> t[i].value.name != t[j].value.name
  }

  // ---- CheckForConflicts ----

  /** Index of the first entry named `name`. */
  function FirstNamed(all: seq<ResolvedDependency>, name: string): (r: Option<nat>)
    ensures r.Some? ==> r.value < |all| && all[r.value].name == name
                        && forall k :: 0 <= k < r.value ==> all[k].name != name
    ensures r.None? ==> forall k :: 0 <= k < |all| ==> all[k].name != name
  {
    if |all| == 0 then None
    else if all[0].name == name then Some(0)
    else match FirstNamed(all[1..], name)
      case None => None
      case Some(k) => Some(k + 1)
  }

  /** Entry `k` has the version and SHA of the first entry of its name. */
  predicate AgreesWithFirst(all: seq<ResolvedDependency>, k: nat)
    requires k < |all|
  {
    var f := FirstNamed(all, all[k].name).value;
    all[f].version == all[k].version && all[f].sha == all[k].sha
  }

  /** No two entries of the same name differ in version or SHA. */
  predicate NoConflicts(all: seq<ResolvedDependency>) {
    forall i, j :: 0 <= i < j < |all| && all[i].name == all[j].name ==>
      all[i].version == all[j].version && all[i].sha == all[j].sha
  }

  /** Entry `j` is the first that differs from the first entry of its name. */
  predicate FirstConflictAt(all: seq<ResolvedDependency>, j: nat) {
    j < |all| && !AgreesWithFirst(all, j) && forall k :: 0 <= k < j ==> AgreesWithFirst(all, k)
  }

  /** `message` reports the first conflict of the list. */
  predicate ReportsFirstConflict(all: seq<ResolvedDependency>, message: string) {
    exists j :: 0 <= j < |all| && FirstConflictAt(all, j) && message == ConflictMessage(all[FirstNamed(all, all[j].name).value], all[j])
  }

  /** The error for `dep` against the first entry of its name: versions are compared before SHAs. */
  function ConflictMessage(existing: ResolvedDependency, dep: ResolvedDependency): string {
    if existing.version != dep.version then
      "Conflicting versions for dependency " + dep.name + ": " + existing.version + " and " + dep.version
    else
      "Conflicting SHAs for dependency " + dep.name + ": " + existing.sha + " and " + dep.sha
  }

  /**
   * `CheckForConflicts`: remembers the first entry of each name in the
   * flattened forest and stops at the first later entry that differs from it.
   */
  method CheckForConflicts(roots: seq<Node>) returns (err: Option<string>)
    ensures err.None? <==> NoConflicts(FlattenEach(roots))
    ensures err.Some? ==> ReportsFirstConflict(FlattenEach(roots), err.value)
  {
    var allDeps := Flatten(roots);
    var depMap: map<string, ResolvedDependency> := map[];
    ghost var firstAt: map<string, nat> := map[];
    for i := 0 to |allDeps|
      invariant Scanned(allDeps, i, depMap, firstAt)
    {
      var dep := allDeps[i];
      if dep.name in depMap {
        var existingDep := depMap[dep.name];
        if existingDep.version != dep.version || existingDep.sha != dep.sha {
          err := Some(ConflictMessage(existingDep, dep));
          ScanAgreesWithFirst(allDeps, i, depMap, firstAt);
          ConflictFound(allDeps, i);
          return;
        }
        ScanKeeps(allDeps, i, depMap, firstAt);
      } else {
        ScanRecords(allDeps, i, depMap, firstAt);
        depMap := depMap[dep.name := dep];
        firstAt := firstAt[dep.name := i];
      }
    }
    ScanAgreesWithFirst(allDeps, |allDeps|, depMap, firstAt);
    AgreementMeansNoConflicts(allDeps);
    err := None;
  }

  predicate Same(a: ResolvedDependency, b: ResolvedDependency) {
    a.version == b.version && a.sha == b.sha
  }

  /**
   * What the scan's map holds after the first `i` entries: the first entry
   * of every name seen (at index `firstAt[name]`), which every entry seen agrees with.
   */
  predicate Scanned(all: seq<ResolvedDependency>, i: nat, depMap: map<string, ResolvedDependency>,
                    firstAt: map<string, nat>) {
    && i <= |all| && depMap.Keys == firstAt.Keys
    && (forall n :: n in firstAt ==> firstAt[n] < i && all[firstAt[n]].name == n && depMap[n] == all[firstAt[n]])
    && (forall k :: 0 <= k < i ==> all[k].name in firstAt && firstAt[all[k].name] <= k)
    && (forall k :: 0 <= k < i ==> Same(depMap[all[k].name], all[k]))
  }

  /** An entry of a new name is recorded as the first of its name. */
  lemma ScanRecords(all: seq<ResolvedDependency>, i: nat, depMap: map<string, ResolvedDependency>,
                    firstAt: map<string, nat>)
    requires Scanned(all, i, depMap, firstAt) && i < |all| && all[i].name !in depMap
    ensures Scanned(all, i + 1, depMap[all[i].name := all[i]], firstAt[all[i].name := i])
  {
  }

  /** An entry that agrees with the first of its name changes nothing. */
  lemma ScanKeeps(all: seq<ResolvedDependency>, i: nat, depMap: map<string, ResolvedDependency>,
                  firstAt: map<string, nat>)
    requires Scanned(all, i, depMap, firstAt) && i < |all| && all[i].name in depMap
    requires Same(depMap[all[i].name], all[i])
    ensures Scanned(all, i + 1, depMap, firstAt)
  {
  }

  /** What the scan's map records: the first entry of every name seen so far. */
  lemma ScanAgreesWithFirst(all: seq<ResolvedDependency>, i: nat, depMap: map<string, ResolvedDependency>,
                            firstAt: map<string, nat>)
    requires Scanned(all, i, depMap, firstAt)
    ensures forall k :: 0 <= k < i ==> AgreesWithFirst(all, k)
    ensures i < |all| && all[i].name in depMap ==>
              FirstNamed(all, all[i].name) == Some(firstAt[all[i].name])
  {
    forall n | n in firstAt ensures FirstNamed(all, n) == Some(firstAt[n]) {
      forall k | 0 <= k < firstAt[n] ensures all[k].name != n {
        assert firstAt[all[k].name] <= k;
      }
      FirstNamedIs(all, n, firstAt[n]);
    }
    forall k | 0 <= k < i ensures AgreesWithFirst(all, k) {
      var n := all[k].name;
      assert FirstNamed(all, n) == Some(firstAt[n]);
      assert Same(depMap[n], all[k]);
    }
  }

  lemma FirstNamedIs(all: seq<ResolvedDependency>, name: string, f: nat)
    requires f < |all| && all[f].name == name
    requires forall k :: 0 <= k < f ==> all[k].name != name
    ensures FirstNamed(all, name) == Some(f)
  {
    var r := FirstNamed(all, name);
    if r.Some? {
      assert !(r.value < f);
    }
  }

  /** An entry that differs from the first of its name, all earlier ones agreeing, is the conflict reported. */
  lemma ConflictFound(all: seq<ResolvedDependency>, j: nat)
    requires j < |all| && !AgreesWithFirst(all, j)
    requires forall k :: 0 <= k < j ==> AgreesWithFirst(all, k)
    ensures !NoConflicts(all)
    ensures ReportsFirstConflict(all, ConflictMessage(all[FirstNamed(all, all[j].name).value], all[j]))
  {
    var f := FirstNamed(all, all[j].name).value;
    assert f != j;
    assert FirstConflictAt(all, j);
  }

  lemma AgreementMeansNoConflicts(all: seq<ResolvedDependency>)
    requires forall k :: 0 <= k < |all| ==> AgreesWithFirst(all, k)
    ensures NoConflicts(all)
  {
    forall i, j | 0 <= i < j < |all| && all[i].name == all[j].name
      ensures all[i].version == all[j].version && all[i].sha == all[j].sha
    {
      assert AgreesWithFirst(all, i) && AgreesWithFirst(all, j);
    }
  }
}
