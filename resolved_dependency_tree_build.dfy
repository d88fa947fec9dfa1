/**
 * `ResolvedDependencyTreeFromArray`: rebuilds the dependency forest from the
 * flat list of a lockfile, placing each entry under the node its install
 * path names, with `FindByNamesPath` and `ReplaceByNamesPath`.
 */
module ResolvedDependencyTreeBuild {
  import opened Wrappers
  import opened TreeNodes
  import opened ResolvedDependencies
  import opened ResolvedDependencyTrees
  import opened ResolvedDependencyTreeSort

  // ---- FindByNamesPath and ReplaceByNamesPath ----

  /** Index of the first node of `t` named `name`. */
  function FirstNodeNamed(t: seq<Node>, name: string): (r: Option<nat>)
    ensures r.Some? ==> r.value < |t| && t[r.value].value.name == name
                        && forall k :: 0 <= k < r.value ==> t[k].value.name != name
    ensures r.None? ==> forall k :: 0 <= k < |t| ==> t[k].value.name != name
  {
    if |t| == 0 then None
    else if t[0].value.name == name then Some(0)
    else match FirstNodeNamed(t[1..], name)
      case None => None
      case Some(k) => Some(k + 1)
  }

  lemma FirstNodeNamedIs(t: seq<Node>, name: string, i: nat)
    requires i < |t| && t[i].value.name == name
    requires forall k :: 0 <= k < i ==> t[k].value.name != name
    ensures FirstNodeNamed(t, name) == Some(i)
  {
    var r := FirstNodeNamed(t, name);
    if r.Some? {
      assert !(r.value < i);
    }
  }

  /** The node reached from `t` by following `names`, taking the first node of each name. */
  function Find(t: seq<Node>, names: seq<string>): Option<Node>
    decreases |names|
  {
    if |names| == 0 then None
    else match FirstNodeNamed(t, names[0])
      case None => None
      case Some(i) => if |names| == 1 then Some(t[i]) else Find(t[i].children, names[1..])
  }

  /**
   * `t` with the node at `names` replaced: at the last level only the first
   * node of the name is replaced, at the levels above every node of the
   * name is descended into.
   */
  function Replace(t: seq<Node>, names: seq<string>, replacement: Node): (r: seq<Node>)
    decreases |names|
    ensures |r| == |t|
  {
    if |names| == 0 then t
    else if |names| == 1 then
      match FirstNodeNamed(t, names[0])
        case None => t
        case Some(i) => t[i := replacement]
    else
      seq(|t|, i requires 0 <= i < |t| =>
        if t[i].value.name == names[0] then TreeNode(t[i].value, Replace(t[i].children, names[1..], replacement))
        else t[i])
  }

  /** `FindByNamesPath`: the first node of the first name, then the search goes on among its children. */
  method FindByNamesPath(t: seq<Node>, names: seq<string>) returns (r: Option<Node>)
    ensures r == Find(t, names)
    decreases |names|
  {
    if |names| == 0 {
      return None;
    }
    for i := 0 to |t|
      invariant forall k :: 0 <= k < i ==> t[k].value.name != names[0]
    {
      if t[i].value.name == names[0] {
        FirstNodeNamedIs(t, names[0], i);
        if |names| == 1 {
          return Some(t[i]);
        }
        r := FindByNamesPath(t[i].children, names[1..]);
        return;
      }
    }
    return None;
  }

  /** `ReplaceByNamesPath`: replaces the node at `names`, descending into every node of each intermediate name. */
  method ReplaceByNamesPath(t: seq<Node>, names: seq<string>, replacement: Node) returns (r: seq<Node>)
    ensures r == Replace(t, names, replacement)
    decreases |names|
  {
    r := t;
    if |names| == 0 {
      return;
    }
    ghost var want := Replace(t, names, replacement);
    for i := 0 to |t|
      invariant |r| == |t|
      invariant |names| == 1 ==> r == t && forall k :: 0 <= k < i ==> t[k].value.name != names[0]
      invariant |names| > 1 ==> r[..i] == want[..i] && r[i..] == t[i..]
    {
      if t[i].value.name == names[0] {
        if |names| == 1 {
          FirstNodeNamedIs(t, names[0], i);
          r := r[i := replacement];
          return;
        }
        var children := ReplaceByNamesPath(t[i].children, names[1..], replacement);
        r := r[i := TreeNode(t[i].value, children)];
      }
      assert |names| > 1 ==> r[..i + 1] == r[..i] + [want[i]];
    }
    assert |names| > 1 ==> r == r[..|t|];
  }

  // ---- the shape FromArray keeps ----

  /**
   * Every node sits where `dependers` says: the dependers of its entry are
   * the names of its ancestors. FromArray uses the depender names read off
   * the install path, `Dependers`.
   */
  type DependersOf = ResolvedDependency -> seq<string>

  predicate Placed(dependers: DependersOf, ancestors: seq<string>, n: Node)
    decreases n
  {
    dependers(n.value) == ancestors
    && forall k :: 0 <= k < |n.children| ==> Placed(dependers, ancestors + [n.value.name], n.children[k])
  }

  predicate WellPlaced(dependers: DependersOf, ancestors: seq<string>, t: seq<Node>) {
    forall i :: 0 <= i < |t| ==> Placed(dependers, ancestors, t[i])
  }

  /** Among siblings of one name, only the first has children; and so at every level. */
  predicate Orderly(t: seq<Node>)
    decreases t
  {
    (forall i, j :: 0 <= j < i < |t| && t[j].value.name == t[i].value.name ==> t[i].children == [])
    && forall i :: 0 <= i < |t| ==> Orderly(t[i].children)
  }

  /** The dependencies of a forest, counted with repetition. */
  function Contents(t: seq<Node>): multiset<ResolvedDependency> {
    multiset(FlattenEach(t))
  }

  lemma UpdateContents(t: seq<Node>, i: nat, y: Node)
    requires i < |t|
    ensures Contents(t[i := y]) + multiset(TreeNodes.Flatten(t[i])) == Contents(t) + multiset(TreeNodes.Flatten(y))
  {
    FlattenEachAround(t, i);
    FlattenEachAround(t[i := y], i);
    assert t[i := y][..i] == t[..i];
    assert t[i := y][i + 1..] == t[i + 1..];
  }

  lemma UpdateOrderly(t: seq<Node>, i: nat, y: Node)
    requires Orderly(t) && i < |t| && y.value.name == t[i].value.name && Orderly(y.children)
    requires FirstNodeNamed(t, y.value.name) == Some(i)
    ensures Orderly(t[i := y])
  {
    var u := t[i := y];
    forall a, b | 0 <= b < a < |u| && u[b].value.name == u[a].value.name ensures u[a].children == [] {
      assert a != i;
      assert t[b].value.name == t[a].value.name;
    }
  }

  /** A leaf for `leaf`, appended to the children of the node at `names`. */
  function Attached(t: seq<Node>, names: seq<string>, leaf: ResolvedDependency): seq<Node>
    requires Find(t, names).Some?
  {
    Replace(t, names, WithChildren(Find(t, names).value, [NewTreeNode(leaf)]))
  }

  /**
   * One step of FromArray: attaching an entry under the node its install
   * path names keeps the forest orderly and placed, and adds that entry.
   */
  lemma {:induction false} PlaceChild(dependers: DependersOf, ancestors: seq<string>, t: seq<Node>, names: seq<string>, leaf: ResolvedDependency)
    requires Orderly(t) && WellPlaced(dependers, ancestors, t)
    requires Find(t, names).Some? && dependers(leaf) == ancestors + names
    ensures Orderly(Attached(t, names, leaf)) && WellPlaced(dependers, ancestors, Attached(t, names, leaf))
    ensures Contents(Attached(t, names, leaf)) == Contents(t) + multiset{leaf}
    decreases |names|
  {
    var i := FirstNodeNamed(t, names[0]).value;
    var name := names[0];
    var c := t[i].children;
    assert Placed(dependers, ancestors, t[i]);
    if |names| == 1 {
      var y := WithChildren(t[i], [NewTreeNode(leaf)]);
      assert Attached(t, names, leaf) == t[i := y];
      AppendLeaf(dependers, ancestors + [name], c, leaf);
      UpdateBelow(dependers, ancestors, t, i, y, leaf);
    } else {
      assert dependers(leaf) == (ancestors + [name]) + names[1..];
      assert Find(c, names[1..]) == Find(t, names);
      PlaceChild(dependers, ancestors + [name], c, names[1..], leaf);
      var y := TreeNode(t[i].value, Attached(c, names[1..], leaf));
      ReplaceDeep(t, names, WithChildren(Find(t, names).value, [NewTreeNode(leaf)]));
      assert Attached(t, names, leaf) == t[i := y];
      UpdateBelow(dependers, ancestors, t, i, y, leaf);
    }
  }

  /** A new leaf at the end of a list of placed siblings. */
  lemma AppendLeaf(dependers: DependersOf, ancestors: seq<string>, c: seq<Node>, leaf: ResolvedDependency)
    requires Orderly(c) && WellPlaced(dependers, ancestors, c) && dependers(leaf) == ancestors
    ensures Orderly(c + [NewTreeNode(leaf)]) && WellPlaced(dependers, ancestors, c + [NewTreeNode(leaf)])
    ensures Contents(c + [NewTreeNode(leaf)]) == Contents(c) + multiset{leaf}
  {
    var u := c + [NewTreeNode(leaf)];
    assert u[..|c|] == c;
    assert Orderly(NewTreeNode(leaf).children);
    forall a | 0 <= a < |u| ensures Placed(dependers, ancestors, u[a]) {
      if a < |c| {
        assert u[a] == c[a];
      }
    }
  }

  /** Giving the first node of a name new children that hold one more entry, all placed. */
  lemma UpdateBelow(dependers: DependersOf, ancestors: seq<string>, t: seq<Node>, i: nat, y: Node, leaf: ResolvedDependency)
    requires Orderly(t) && WellPlaced(dependers, ancestors, t) && i < |t|
    requires FirstNodeNamed(t, t[i].value.name) == Some(i) && y.value == t[i].value
    requires Orderly(y.children) && WellPlaced(dependers, ancestors + [y.value.name], y.children)
    requires Contents(y.children) == Contents(t[i].children) + multiset{leaf}
    ensures Orderly(t[i := y]) && WellPlaced(dependers, ancestors, t[i := y])
    ensures Contents(t[i := y]) == Contents(t) + multiset{leaf}
  {
    UpdatePlaced(dependers, ancestors, t, i, y);
    UpdateOrderly(t, i, y);
    UpdateContentsBy(t, i, y, leaf);
  }

  lemma UpdatePlaced(dependers: DependersOf, ancestors: seq<string>, t: seq<Node>, i: nat, y: Node)
    requires WellPlaced(dependers, ancestors, t) && i < |t| && y.value == t[i].value
    requires WellPlaced(dependers, ancestors + [y.value.name], y.children)
    ensures WellPlaced(dependers, ancestors, t[i := y])
  {
    assert Placed(dependers, ancestors, t[i]);
    assert Placed(dependers, ancestors, y);
    var u := t[i := y];
    forall k | 0 <= k < |u| ensures Placed(dependers, ancestors, u[k]) {
    }
  }

  lemma UpdateContentsBy(t: seq<Node>, i: nat, y: Node, leaf: ResolvedDependency)
    requires i < |t| && y.value == t[i].value
    requires Contents(y.children) == Contents(t[i].children) + multiset{leaf}
    ensures Contents(t[i := y]) == Contents(t) + multiset{leaf}
  {
    UpdateContents(t, i, y);
    var m := multiset(TreeNodes.Flatten(t[i]));
    assert multiset(TreeNodes.Flatten(y)) == m + multiset{leaf} by {
      FlattenUniform(y);
      FlattenUniform(t[i]);
    }
    MultisetCancel(Contents(t[i := y]), Contents(t) + multiset{leaf}, m);
  }

  lemma MultisetCancel<X>(a: multiset<X>, b: multiset<X>, m: multiset<X>)
    requires a + m == b + m
    ensures a == b
  {
    forall x ensures a[x] == b[x] {
      assert (a + m)[x] == (b + m)[x];
    }
  }

  /** In an orderly forest, replacing below the first node of a name leaves its namesakes alone. */
  lemma ReplaceDeep(t: seq<Node>, names: seq<string>, rep: Node)
    requires Orderly(t) && |names| > 1 && FirstNodeNamed(t, names[0]).Some?
    ensures var i := FirstNodeNamed(t, names[0]).value;
            Replace(t, names, rep) == t[i := TreeNode(t[i].value, Replace(t[i].children, names[1..], rep))]
  {
    var i := FirstNodeNamed(t, names[0]).value;
    var r := Replace(t, names, rep);
    forall j | 0 <= j < |t| && j != i ensures r[j] == t[j] {
      if t[j].value.name == names[0] {
        assert t[j].children == [];
      }
    }
  }

  // ---- what a placed forest says about its entries ----

  /** The dependers of every entry start with the ancestors of the forest it sits in. */
  lemma {:induction false} PlacedPrefix(dependers: DependersOf, ancestors: seq<string>, t: seq<Node>, e: ResolvedDependency)
    requires WellPlaced(dependers, ancestors, t) && e in FlattenEach(t)
    ensures |ancestors| <= |dependers(e)| && dependers(e)[..|ancestors|] == ancestors
    decreases t
  {
    FlattenEachMember(t, e);
    var i :| 0 <= i < |t| && e in TreeNodes.Flatten(t[i]);
    assert Placed(dependers, ancestors, t[i]);
    FlattenUniform(t[i]);
    if e != t[i].value {
      PlacedPrefix(dependers, ancestors + [t[i].value.name], t[i].children, e);
    }
  }

  /** Every entry of an orderly, placed forest can be found again by its dependers and name. */
  lemma {:induction false} FindPlaced(dependers: DependersOf, ancestors: seq<string>, t: seq<Node>, e: ResolvedDependency)
    requires Orderly(t) && WellPlaced(dependers, ancestors, t) && e in FlattenEach(t)
    ensures |ancestors| <= |dependers(e)|
    ensures Find(t, dependers(e)[|ancestors|..] + [e.name]).Some?
    decreases t
  {
    FlattenEachMember(t, e);
    var i :| 0 <= i < |t| && e in TreeNodes.Flatten(t[i]);
    assert Placed(dependers, ancestors, t[i]);
    FlattenUniform(t[i]);
    var name := t[i].value.name;
    if e == t[i].value {
      assert dependers(e)[|ancestors|..] + [e.name] == [name];
    } else {
      var anc := ancestors + [name];
      FindPlaced(dependers, anc, t[i].children, e);
      PlacedPrefix(dependers, anc, t[i].children, e);
      PathStep(dependers(e), ancestors, name, e.name);
      FindThroughFirst(t, i, dependers(e)[|ancestors|..] + [e.name]);
    }
  }

  /** The path below `a` starts with the next ancestor's name, then goes on as the path below it. */
  lemma PathStep(d: seq<string>, a: seq<string>, name: string, last: string)
    requires |a| + 1 <= |d| && d[..|a| + 1] == a + [name]
    ensures |d[|a|..] + [last]| >= 2 && (d[|a|..] + [last])[0] == name
    ensures (d[|a|..] + [last])[1..] == d[|a| + 1..] + [last]
  {
    assert d[|a|] == (a + [name])[|a|];
  }

  /** In an orderly forest, a node with children is the first of its name, so a path through it is followed. */
  lemma FindThroughFirst(t: seq<Node>, i: nat, path: seq<string>)
    requires Orderly(t) && i < |t| && t[i].children != []
    requires |path| >= 2 && path[0] == t[i].value.name && Find(t[i].children, path[1..]).Some?
    ensures Find(t, path).Some?
  {
    forall k | 0 <= k < i ensures t[k].value.name != path[0] {
    }
    FirstNodeNamedIs(t, path[0], i);
  }

  /** Below the roots, every entry has its depender in the forest too. */
  lemma {:induction false} ParentPresent(dependers: DependersOf, ancestors: seq<string>, t: seq<Node>, e: ResolvedDependency)
    requires WellPlaced(dependers, ancestors, t) && e in FlattenEach(t) && |dependers(e)| > |ancestors|
    ensures exists d :: d in FlattenEach(t) && dependers(d) + [d.name] == dependers(e)
    decreases t
  {
    FlattenEachMember(t, e);
    var i :| 0 <= i < |t| && e in TreeNodes.Flatten(t[i]);
    assert Placed(dependers, ancestors, t[i]);
    FlattenUniform(t[i]);
    FlattenEachMember(t, t[i].value);
    var anc := ancestors + [t[i].value.name];
    PlacedPrefix(dependers, anc, t[i].children, e);
    if |dependers(e)| == |anc| {
      assert dependers(e) == anc;
      assert dependers(t[i].value) + [t[i].value.name] == dependers(e);
    } else {
      ParentPresent(dependers, anc, t[i].children, e);
      var d :| d in FlattenEach(t[i].children) && dependers(d) + [d.name] == dependers(e);
      FlattenEachMember(t, d);
    }
  }

  // ---- sorting keeps the placement ----

  lemma {:induction false} SortTreePlaced(dependers: DependersOf, ancestors: seq<string>, n: Node)
    requires Placed(dependers, ancestors, n)
    ensures Placed(dependers, ancestors, SortTree(n))
    decreases n, 1
  {
    SortAllPlaced(dependers, ancestors + [n.value.name], n.children);
  }

  /** `SortAll` moves no node to another parent. */
  lemma {:induction false} SortAllPlaced(dependers: DependersOf, ancestors: seq<string>, t: seq<Node>)
    requires WellPlaced(dependers, ancestors, t)
    ensures WellPlaced(dependers, ancestors, SortAll(t))
    decreases t, 0
  {
    var m := SortEach(t);
    StableSortPermutes(m);
    var r := StableSort(m);
    forall i | 0 <= i < |r| ensures Placed(dependers, ancestors, r[i]) {
      assert r[i] in multiset(m);
      var k :| 0 <= k < |t| && m[k] == r[i];
      SortTreePlaced(dependers, ancestors, t[k]);
    }
  }

  // ---- ResolvedDependencyTreeFromArray ----

  /** `intermediateResult`: a lockfile entry and the depender names read off its install path. */
  datatype Pending = Pending(dep: ResolvedDependency, dependerNames: seq<string>)

  function Deps(p: seq<Pending>): (r: seq<ResolvedDependency>)
    ensures |r| == |p|
  {
    seq(|p|, k requires 0 <= k < |p| => p[k].dep)
  }

  /** `remove`: the slice without its element `i`; the later elements move down by one. */
  function Remove<X>(s: seq<X>, i: nat): (r: seq<X>)
    requires i < |s|
    ensures |r| == |s| - 1
    ensures forall k :: 0 <= k < |r| ==> r[k] == if k < i then s[k] else s[k + 1]
  {
    s[..i] + s[i + 1..]
  }

  lemma RemoveDeps(p: seq<Pending>, i: nat)
    requires i < |p|
    ensures multiset(Deps(Remove(p, i))) + multiset{p[i].dep} == multiset(Deps(p))
  {
    assert Deps(p) == Deps(p[..i]) + [p[i].dep] + Deps(p[i + 1..]);
    assert Deps(Remove(p, i)) == Deps(p[..i]) + Deps(p[i + 1..]);
  }

  /** An entry below the roots whose depender no entry of `arr` can be: it has nowhere to go. */
  predicate Orphan(dependers: DependersOf, arr: seq<ResolvedDependency>, d: ResolvedDependency) {
    |dependers(d)| > 0 && forall e :: e in arr ==> dependers(e) + [e.name] != dependers(d)
  }

  /** Childless roots with no dependers form an orderly, placed forest. */
  lemma RootsPlaced(dependers: DependersOf, t: seq<Node>)
    requires forall k :: 0 <= k < |t| ==> t[k].children == [] && dependers(t[k].value) == []
    ensures Orderly(t) && WellPlaced(dependers, [], t)
  {
    forall k | 0 <= k < |t| ensures Orderly(t[k].children) {
      assert t[k].children == [];
    }
  }

  lemma ShortestPending(pending: seq<Pending>) returns (m: nat)
    requires |pending| > 0
    ensures m < |pending|
    ensures forall k :: 0 <= k < |pending| ==> |pending[m].dependerNames| <= |pending[k].dependerNames|
  {
    m := 0;
    for i := 1 to |pending|
      invariant m < i
      invariant forall k :: 0 <= k < i ==> |pending[m].dependerNames| <= |pending[k].dependerNames|
    {
      if |pending[i].dependerNames| < |pending[m].dependerNames| {
        m := i;
      }
    }
  }

  /**
   * A pass that places nothing means some entry is an orphan: the shortest
   * waiting path has no depender in the forest, so none in the lockfile.
   */
  lemma Stalled(dependers: DependersOf, tree: seq<Node>, pending: seq<Pending>, arr: seq<ResolvedDependency>)
    requires AllFound(dependers, tree)
    requires Contents(tree) + multiset(Deps(pending)) == multiset(arr) && |pending| > 0
    requires Waiting(dependers, pending)
    requires forall k :: 0 <= k < |pending| ==> Find(tree, pending[k].dependerNames).None?
    ensures exists d :: d in arr && Orphan(dependers, arr, d)
  {
    var m := ShortestPending(pending);
    var d := pending[m].dep;
    EntrySplit(tree, pending, arr, d);
    forall e | e in arr ensures dependers(e) + [e.name] != dependers(d) {
      EntrySplit(tree, pending, arr, e);
      if e in Contents(tree) {
        assert Find(tree, dependers(e) + [e.name]).Some?;
      } else {
        var k :| 0 <= k < |pending| && pending[k].dep == e;
        assert |pending[m].dependerNames| <= |pending[k].dependerNames|;
      }
    }
  }

  /** An entry of the lockfile is either in the forest or waiting, and one waiting is in the lockfile. */
  lemma EntrySplit(tree: seq<Node>, pending: seq<Pending>, arr: seq<ResolvedDependency>, e: ResolvedDependency)
    requires Contents(tree) + multiset(Deps(pending)) == multiset(arr)
    ensures e in arr <==> e in Contents(tree) || exists k :: 0 <= k < |pending| && pending[k].dep == e
  {
    assert e in arr <==> e in multiset(arr);
    if exists k :: 0 <= k < |pending| && pending[k].dep == e {
      var k :| 0 <= k < |pending| && pending[k].dep == e;
      assert Deps(pending)[k] == e;
    }
    if e in multiset(Deps(pending)) {
      var k :| 0 <= k < |pending| && Deps(pending)[k] == e;
    }
  }

  /** Every entry of the forest is found again by its dependers and its name. */
  predicate AllFound(dependers: DependersOf, tree: seq<Node>) {
    forall e :: e in Contents(tree) ==> Find(tree, dependers(e) + [e.name]).Some?
  }

  lemma OrderlyAllFound(dependers: DependersOf, tree: seq<Node>)
    requires Orderly(tree) && WellPlaced(dependers, [], tree)
    ensures AllFound(dependers, tree)
  {
    forall e | e in Contents(tree) ensures Find(tree, dependers(e) + [e.name]).Some? {
      FindPlaced(dependers, [], tree, e);
      assert dependers(e)[0..] == dependers(e);
    }
  }

  /** In a placed forest holding every entry, no entry is an orphan. */
  lemma NoOrphans(dependers: DependersOf, tree: seq<Node>, arr: seq<ResolvedDependency>)
    requires WellPlaced(dependers, [], tree) && Contents(tree) == multiset(arr)
    ensures forall d :: d in arr ==> !Orphan(dependers, arr, d)
  {
    forall d | d in arr && |dependers(d)| > 0 ensures !Orphan(dependers, arr, d) {
      assert d in multiset(arr);
      ParentPresent(dependers, [], tree, d);
      var p :| p in FlattenEach(tree) && dependers(p) + [p.name] == dependers(d);
      assert p in Contents(tree);
    }
  }

  /** Entries waiting for a depender: their names are read off their install paths and are not empty. */
  predicate Waiting(dependers: DependersOf, pending: seq<Pending>) {
    forall k :: 0 <= k < |pending| ==> pending[k].dependerNames == dependers(pending[k].dep) && pending[k].dependerNames != []
  }

  /** What FromArray keeps while it builds: an orderly, placed forest and the entries still waiting, together all of `arr`. */
  predicate Building(dependers: DependersOf, arr: seq<ResolvedDependency>, tree: seq<Node>, pending: seq<Pending>) {
    Orderly(tree) && WellPlaced(dependers, [], tree)
    && Contents(tree) + multiset(Deps(pending)) == multiset(arr)
    && Waiting(dependers, pending)
  }

  /** The first loop of FromArray: moves the entries without dependers, from the last, to the roots. */
  method TakeRoots(ghost dependers: DependersOf, ghost arr: seq<ResolvedDependency>, entries: seq<Pending>)
    returns (tree: seq<Node>, pending: seq<Pending>)
    requires multiset(Deps(entries)) == multiset(arr)
    requires forall k :: 0 <= k < |entries| ==> entries[k].dependerNames == dependers(entries[k].dep)
    ensures Building(dependers, arr, tree, pending)
  {
    tree := [];
    pending := entries;
    var i: nat := |pending|;
    while i > 0
      invariant Taking(dependers, arr, tree, pending, i)
    {
      i := i - 1;
      if |pending[i].dependerNames| == 0 {
        TakeRoot(dependers, arr, tree, pending, i);
        tree := tree + [NewTreeNode(pending[i].dep)];
        pending := Remove(pending, i);
      }
    }
    RootsPlaced(dependers, tree);
  }

  /**
   * What the first loop keeps: childless roots without dependers and the
   * entries still waiting, together all of `arr`; those from `i` on have dependers.
   */
  predicate Taking(dependers: DependersOf, arr: seq<ResolvedDependency>, tree: seq<Node>, pending: seq<Pending>, i: nat) {
    && i <= |pending|
    && (forall k :: 0 <= k < |tree| ==> tree[k].children == [] && dependers(tree[k].value) == [])
    && Contents(tree) + multiset(Deps(pending)) == multiset(arr)
    && (forall k :: 0 <= k < |pending| ==> pending[k].dependerNames == dependers(pending[k].dep))
    && (forall k :: i <= k < |pending| ==> pending[k].dependerNames != [])
  }

  /** Moving an entry without dependers to the roots keeps what the first loop keeps. */
  lemma TakeRoot(dependers: DependersOf, arr: seq<ResolvedDependency>, tree: seq<Node>, pending: seq<Pending>, i: nat)
    requires Taking(dependers, arr, tree, pending, i + 1) && |pending[i].dependerNames| == 0
    ensures Taking(dependers, arr, tree + [NewTreeNode(pending[i].dep)], Remove(pending, i), i)
  {
    var leaf := pending[i].dep;
    var u := tree + [NewTreeNode(leaf)];
    assert u[..|tree|] == tree;
    assert Contents(u) == Contents(tree) + multiset{leaf};
    RemoveDeps(pending, i);
  }

  /**
   * One pass of the second loop of FromArray: from the last waiting entry to
   * the first, attaches each entry whose depender node is found.
   */
  method AttachPass(ghost dependers: DependersOf, ghost arr: seq<ResolvedDependency>, tree0: seq<Node>, pending0: seq<Pending>)
    returns (tree: seq<Node>, pending: seq<Pending>, progress: bool)
    requires Building(dependers, arr, tree0, pending0)
    ensures Building(dependers, arr, tree, pending)
    ensures progress ==> |pending| < |pending0|
    ensures !progress ==> tree == tree0 && pending == pending0
    ensures !progress ==> forall k :: 0 <= k < |pending| ==> Find(tree, pending[k].dependerNames).None?
  {
    tree, pending, progress := tree0, pending0, false;
    var i := |pending|;
    while i > 0
      invariant 0 <= i <= |pending| <= |pending0|
      invariant Building(dependers, arr, tree, pending)
      invariant !progress ==> tree == tree0 && pending == pending0
      invariant !progress ==> forall k :: i <= k < |pending| ==> Find(tree, pending[k].dependerNames).None?
      invariant progress ==> |pending| < |pending0|
    {
      i := i - 1;
      var tempResult := pending[i];
      var dependerNode := FindByNamesPath(tree, tempResult.dependerNames);
      if dependerNode.Some? {
        var node := NewTreeNode(tempResult.dep);
        AttachStep(dependers, arr, tree, pending, i);
        tree := ReplaceByNamesPath(tree, tempResult.dependerNames, WithChildren(dependerNode.value, [node]));
        pending := Remove(pending, i);
        progress := true;
      }
    }
  }

  lemma AttachStep(dependers: DependersOf, arr: seq<ResolvedDependency>, tree: seq<Node>, pending: seq<Pending>, i: nat)
    requires Building(dependers, arr, tree, pending) && i < |pending|
    requires Find(tree, pending[i].dependerNames).Some?
    ensures Building(dependers, arr, Attached(tree, pending[i].dependerNames, pending[i].dep), Remove(pending, i))
  {
    PlaceChild(dependers, [], tree, pending[i].dependerNames, pending[i].dep);
    RemoveDeps(pending, i);
  }

  /** The loop of FromArray that pairs each entry with the depender names read off its install path. */
  method ReadDependers(dependers: DependersOf, arr: seq<ResolvedDependency>) returns (entries: seq<Pending>)
    ensures Deps(entries) == arr
    ensures forall k :: 0 <= k < |entries| ==> entries[k].dependerNames == dependers(entries[k].dep)
  {
    entries := [];
    for i := 0 to |arr|
      invariant Deps(entries) == arr[..i]
      invariant forall k :: 0 <= k < i ==> entries[k].dependerNames == dependers(entries[k].dep)
    {
      entries := entries + [Pending(arr[i], dependers(arr[i]))];
    }
    assert arr[..|arr|] == arr;
  }

  /**
   * `ResolvedDependencyTreeFromArray`: reads the dependers of each entry off
   * its install path, takes the entries without dependers as roots, then
   * makes passes over the rest, attaching every entry whose depender is
   * already in the forest, until none is left; finally sorts every level by
   * name. Where a pass attaches nothing the source loops forever; here the
   * result is `None`, which happens exactly when some entry is an orphan.
   */
  method FromArray(arr: seq<ResolvedDependency>) returns (r: Option<seq<Node>>)
    ensures r.None? <==> exists d :: d in arr && Orphan(Dependers, arr, d)
    ensures r.Some? ==> Contents(r.value) == multiset(arr)
    ensures r.Some? ==> WellPlaced(Dependers, [], r.value) && SortedDeep(r.value)
  {
    var dependers: DependersOf := Dependers;
    var entries := ReadDependers(dependers, arr);

    var tree, pending := TakeRoots(dependers, arr, entries);
    while |pending| > 0
      invariant Building(dependers, arr, tree, pending)
      decreases |pending|
    {
      var progress;
      tree, pending, progress := AttachPass(dependers, arr, tree, pending);
      if !progress {
        OrderlyAllFound(dependers, tree);
        Stalled(dependers, tree, pending, arr);
        return None;
      }
    }

    var a := ToArray(tree);
    SortAllByNames(a);
    assert Deps(pending) == [];
    NoOrphans(dependers, tree, arr);
    SortAllContents(tree);
    SortAllPlaced(dependers, [], tree);
    SortAllSorted(tree);
    r := Some(a[..]);
  }
}
