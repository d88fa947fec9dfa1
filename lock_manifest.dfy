/**
 * `LockManifest`: the contents of `ahkpm.lock` — the lockfile format
 * version, the dependency set it was resolved from, and every resolved
 * package listed in the pre-order of the dependency forest.
 */
module LockManifests {
  import opened TreeNodes
  import opened Dependencies
  import opened ResolvedDependencies
  import opened ResolvedDependencyTrees

  /** `Dependencies` is the dependency set's name → dependency map. */
  datatype LockManifest = LockManifest(
    lockfileVersion: string, dependencies: map<string, Dependency>, resolved: seq<ResolvedDependency>)

  const CurrentLockfileVersion: string := "1"

  /** `NewLockManifest`: format version "1", no dependencies, nothing resolved. */
  function NewLockManifest(): (lm: LockManifest)
    ensures lm.lockfileVersion == "1"
    ensures |lm.dependencies| == 0 && |lm.resolved| == 0
  {
    LockManifest(CurrentLockfileVersion, map[], [])
  }

  /**
   * `WithResolved`: walks each root with `TreeNode.ForEach`, whose callback
   * appends the visited node's value and never fails (so the exit on error
   * is never taken), and stores the list as `Resolved`.
   */
  method WithResolved(lm: LockManifest, resDeps: seq<Node>) returns (r: LockManifest)
    ensures r.resolved == FlattenEach(resDeps)
    ensures r.lockfileVersion == lm.lockfileVersion && r.dependencies == lm.dependencies
  {
    var resolved: seq<ResolvedDependency> := [];
    for i := 0 to |resDeps|
      invariant resolved == FlattenEach(resDeps[..i])
    {
      resolved := AppendVisited(resolved, resDeps[i]);
      FlattenEachPrefix(resDeps, i);
    }
    assert resDeps[..|resDeps|] == resDeps;
    r := lm.(resolved := resolved);
  }

  /** The `ForEach` walk of `WithResolved`: appends the value of each node it visits, in pre-order. */
  method AppendVisited(resolved: seq<ResolvedDependency>, depNode: Node) returns (r: seq<ResolvedDependency>)
    ensures r == resolved + TreeNodes.Flatten(depNode)
  {
    r := resolved;
    var visits := Nodes(depNode);
    for j := 0 to |visits|
      invariant r == resolved + Values(visits[..j])
    {
      assert visits[..j + 1] == visits[..j] + [visits[j]];
      ValuesAppend(visits[..j], [visits[j]]);
      r := r + [visits[j].value];
    }
    assert visits[..|visits|] == visits;
    FlattenIsPreOrder(depNode);
  }

  lemma FlattenEachPrefix(ns: seq<Node>, i: nat)
    requires i < |ns|
    ensures FlattenEach(ns[..i + 1]) == FlattenEach(ns[..i]) + TreeNodes.Flatten(ns[i])
  {
    assert ns[..i + 1][..i] == ns[..i];
  }

  /** `WithDependencies`: replaces the dependency set and nothing else. */
  function WithDependencies(lm: LockManifest, deps: map<string, Dependency>): (r: LockManifest)
    ensures r.dependencies == deps
    ensures r.lockfileVersion == lm.lockfileVersion && r.resolved == lm.resolved
  {
    lm.(dependencies := deps)
  }

  /** The lockfile lists one entry per node of the forest, each root before its descendants. */
  lemma {:induction false} OneEntryPerNode(resDeps: seq<Node>)
    ensures |FlattenEach(resDeps)| == CountEach(resDeps)
    ensures forall i :: 0 <= i < |resDeps| ==> resDeps[i].value in FlattenEach(resDeps)
  {
    FlattenEachIsPreOrder(resDeps);
    NodesEachCount(resDeps);
    forall i | 0 <= i < |resDeps|
      ensures resDeps[i].value in FlattenEach(resDeps)
    {
      FlattenLength(resDeps[i]);
      FlattenEachMember(resDeps, resDeps[i].value);
    }
  }
}
