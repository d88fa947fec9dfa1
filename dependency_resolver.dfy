/**
 * The dependency resolver: for each requested dependency, asks the packages
 * repository for the dependencies it declares and hangs them under it as
 * leaves. Resolution goes one level deep.
 */
module DependencyResolvers {
  import opened Wrappers
  import opened Dependencies

  /** `Node[T]`: the resolver's own tree type. */
  datatype Node<T> = Node(value: T, children: seq<Node<T>>)

  /**
   * The packages repository's `GetPackageDependencies`: the dependencies a
   * package declares, or the error that fetching or reading it gave.
   */
  type Repository = Dependency -> Result<seq<Dependency>>

  /** `nodes` holds one leaf per item of `arr`, in order. */
  ghost predicate LeavesOf<T>(nodes: seq<Node<T>>, arr: seq<T>) {
    |nodes| == |arr| && forall i :: 0 <= i < |arr| ==> nodes[i].value == arr[i] && |nodes[i].children| == 0
  }

  /** Levels of a tree: 1 for a leaf. */
  function Height<T>(n: Node<T>): (h: nat)
    ensures h >= 1
    decreases n, 1
  {
    1 + MaxHeight(n.children)
  }

  function MaxHeight<T>(ns: seq<Node<T>>): (h: nat)
    ensures forall i :: 0 <= i < |ns| ==> Height(ns[i]) <= h
    ensures |ns| == 0 ==> h == 0
    decreases ns, 0
  {
    if |ns| == 0 then 0
    else
      var rest := MaxHeight(ns[1..]);
      assert forall i :: 1 <= i < |ns| ==> ns[i] == ns[1..][i - 1];
      if Height(ns[0]) > rest then Height(ns[0]) else rest
  }

  /** Index `i` is the first dependency whose lookup fails. */
  predicate FirstFailure(deps: seq<Dependency>, getPackageDependencies: Repository, i: int) {
    0 <= i < |deps| && getPackageDependencies(deps[i]).Err?
    && forall k :: 0 <= k < i ==> getPackageDependencies(deps[k]).Ok?
  }

  /**
   * `resolver.Resolve`: an empty request resolves to nothing; otherwise
   * node `i` holds `deps[i]` with the repository's dependency list for it
   * as leaves. A repository error ends the process in the source; here it
   * is the `Err` outcome carrying the first such error.
   */
  method Resolve(deps: seq<Dependency>, getPackageDependencies: Repository) returns (r: Result<seq<Node<Dependency>>>)
    ensures |deps| == 0 ==> r == Ok([])
    ensures r.Ok? <==> forall i :: 0 <= i < |deps| ==> getPackageDependencies(deps[i]).Ok?
    ensures r.Ok? ==> |r.value| == |deps|
    ensures r.Ok? ==> forall i :: 0 <= i < |deps| ==>
              r.value[i].value == deps[i] && LeavesOf(r.value[i].children, getPackageDependencies(deps[i]).value)
    ensures r.Err? ==> exists i :: FirstFailure(deps, getPackageDependencies, i)
                                   && r.error == getPackageDependencies(deps[i]).error
  {
    if |deps| == 0 {
      return Ok([]);
    }
    var depNodes := new Node<Dependency>[|deps|];
    for i := 0 to |deps|
      invariant forall k :: 0 <= k < i ==> getPackageDependencies(deps[k]).Ok?
      invariant forall k :: 0 <= k < i ==>
                  depNodes[k].value == deps[k] && LeavesOf(depNodes[k].children, getPackageDependencies(deps[k]).value)
    {
      var childDependencies := getPackageDependencies(deps[i]);
      if childDependencies.Err? {
        assert FirstFailure(deps, getPackageDependencies, i);
        return Err(childDependencies.error);
      }
      var children := ArrayToNodes(childDependencies.value);
      depNodes[i] := Node(deps[i], children);
    }
    return Ok(depNodes[..]);
  }

  /** `ArrayToNodes`: one childless node per item, in order. */
  method ArrayToNodes<T(0)>(arr: seq<T>) returns (nodes: seq<Node<T>>)
    ensures LeavesOf(nodes, arr)
  {
    var a := new Node<T>[|arr|];
    for i := 0 to |arr|
      invariant forall k :: 0 <= k < i ==> a[k] == Node(arr[k], [])
    {
      a[i] := Node(arr[i], []);
    }
    nodes := a[..];
  }

  /** Resolution goes one level deep: each resolved node is a package with leaves under it. */
  lemma {:induction false} LeavesUnderRoot<T>(root: Node<T>, arr: seq<T>)
    requires LeavesOf(root.children, arr)
    ensures Height(root) == (if |arr| == 0 then 1 else 2)
  {
    var ns := root.children;
    LeavesHeight(ns);
  }

  lemma {:induction false} LeavesHeight<T>(ns: seq<Node<T>>)
    requires forall i :: 0 <= i < |ns| ==> |ns[i].children| == 0
    ensures MaxHeight(ns) == (if |ns| == 0 then 0 else 1)
    decreases |ns|
  {
    if |ns| > 0 {
      assert Height(ns[0]) == 1 + MaxHeight(ns[0].children);
      LeavesHeight(ns[1..]);
    }
  }
}
