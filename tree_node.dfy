/**
 * `TreeNode[T]`: a generic tree whose node owns its children, with the
 * pre-order `Flatten` and `ForEach` traversals. Go's `Parent` back-pointer
 * is not a field here: code that needs a node's position receives the list
 * of its ancestors from the traversal that reaches it.
 */
module TreeNodes {
  import opened Wrappers

  datatype TreeNode<T> = TreeNode(value: T, children: seq<TreeNode<T>>)

  /** `NewTreeNode`: the value, no children (and no parent). */
  function NewTreeNode<T>(value: T): (n: TreeNode<T>)
    ensures n.value == value && IsLeaf(n)
    ensures Flatten(n) == [value]
  {
    TreeNode(value, [])
  }

  predicate IsLeaf<T>(n: TreeNode<T>) {
    |n.children| == 0
  }

  /** `TreeNode.Flatten`: the node's value, then each child's flattening in turn. */
  function Flatten<T>(n: TreeNode<T>): seq<T>
    decreases n, 1
  {
    if IsLeaf(n) then [n.value] else [n.value] + FlattenEach(n.children)
  }

  /** The loop of `Flatten`: appends the flattening of each node of `ns`, left to right. */
  function FlattenEach<T>(ns: seq<TreeNode<T>>): seq<T>
    decreases ns, 0
  {
    if |ns| == 0 then [] else FlattenEach(ns[..|ns| - 1]) + Flatten(ns[|ns| - 1])
  }

  /** Number of nodes in a tree, and in a list of trees. */
  function Count<T>(n: TreeNode<T>): nat
    decreases n, 1
  {
    1 + CountEach(n.children)
  }

  function CountEach<T>(ns: seq<TreeNode<T>>): nat
    decreases ns, 0
  {
    if |ns| == 0 then 0 else Count(ns[0]) + CountEach(ns[1..])
  }

  /** The subtrees of `n` in pre-order: the node itself before its children, children left to right. */
  function Nodes<T>(n: TreeNode<T>): seq<TreeNode<T>>
    decreases n, 1
  {
    [n] + NodesEach(n.children)
  }

  function NodesEach<T>(ns: seq<TreeNode<T>>): seq<TreeNode<T>>
    decreases ns, 0
  {
    if |ns| == 0 then [] else Nodes(ns[0]) + NodesEach(ns[1..])
  }

  function Values<T>(ns: seq<TreeNode<T>>): (r: seq<T>)
    ensures |r| == |ns|
    ensures forall i :: 0 <= i < |ns| ==> r[i] == ns[i].value
  {
    if |ns| == 0 then [] else [ns[0].value] + Values(ns[1..])
  }

  lemma ValuesAppend<T>(a: seq<TreeNode<T>>, b: seq<TreeNode<T>>)
    ensures Values(a + b) == Values(a) + Values(b)
  {
  }

  lemma {:induction false} NodesEachAppend<T>(ns: seq<TreeNode<T>>, n: TreeNode<T>)
    ensures NodesEach(ns + [n]) == NodesEach(ns) + Nodes(n)
    decreases |ns|
  {
    if |ns| == 0 {
      assert NodesEach([n]) == Nodes(n) + NodesEach([]);
    } else {
      assert (ns + [n])[1..] == ns[1..] + [n];
      NodesEachAppend(ns[1..], n);
    }
  }

  lemma {:induction false} NodesEachConcat<T>(a: seq<TreeNode<T>>, b: seq<TreeNode<T>>)
    ensures NodesEach(a + b) == NodesEach(a) + NodesEach(b)
    decreases |a|
  {
    if |a| == 0 {
      assert a + b == b;
    } else {
      assert (a + b)[1..] == a[1..] + b;
      NodesEachConcat(a[1..], b);
    }
  }

  /**
   * Flatten lists exactly the values of the pre-order node list: the node
   * first, then each child subtree from left to right.
   */
  lemma {:induction false} FlattenIsPreOrder<T>(n: TreeNode<T>)
    ensures Flatten(n) == Values(Nodes(n))
    decreases n, 1
  {
    FlattenEachIsPreOrder(n.children);
    ValuesAppend([n], NodesEach(n.children));
  }

  lemma {:induction false} FlattenEachIsPreOrder<T>(ns: seq<TreeNode<T>>)
    ensures FlattenEach(ns) == Values(NodesEach(ns))
    decreases ns, 0
  {
    if |ns| > 0 {
      var init, last := ns[..|ns| - 1], ns[|ns| - 1];
      assert ns == init + [last];
      FlattenEachIsPreOrder(init);
      FlattenIsPreOrder(last);
      NodesEachAppend(init, last);
      ValuesAppend(NodesEach(init), Nodes(last));
    }
  }

  lemma {:induction false} NodesCount<T>(n: TreeNode<T>)
    ensures |Nodes(n)| == Count(n)
    decreases n, 1
  {
    NodesEachCount(n.children);
  }

  lemma {:induction false} NodesEachCount<T>(ns: seq<TreeNode<T>>)
    ensures |NodesEach(ns)| == CountEach(ns)
    decreases ns, 0
  {
    if |ns| > 0 {
      NodesCount(ns[0]);
      NodesEachCount(ns[1..]);
    }
  }

  /** A tree flattens to one value per node, its own value first. */
  lemma FlattenLength<T>(n: TreeNode<T>)
    ensures |Flatten(n)| == Count(n)
    ensures Flatten(n)[0] == n.value
  {
    FlattenIsPreOrder(n);
    NodesCount(n);
  }

  /** `TreeNode.ForEach`: calls `callback` on the node, then on each child subtree; stops at the first error. */
  function ForEach<T, E>(n: TreeNode<T>, callback: TreeNode<T> -> Option<E>): Option<E>
    decreases n, 1
  {
    match callback(n)
    case Some(err) => Some(err)
    case None => ForEachChild(n.children, callback)
  }

  /** The loop of `ForEach` over the children. */
  function ForEachChild<T, E>(ns: seq<TreeNode<T>>, callback: TreeNode<T> -> Option<E>): Option<E>
    decreases ns, 0
  {
    if |ns| == 0 then None
    else match ForEach(ns[0], callback)
      case Some(err) => Some(err)
      case None => ForEachChild(ns[1..], callback)
  }

  /** The nodes `ForEach` hands to `callback`, in the order of the calls. */
  function Visited<T, E>(n: TreeNode<T>, callback: TreeNode<T> -> Option<E>): seq<TreeNode<T>>
    decreases n, 1
  {
    if callback(n).Some? then [n] else [n] + VisitedChildren(n.children, callback)
  }

  function VisitedChildren<T, E>(ns: seq<TreeNode<T>>, callback: TreeNode<T> -> Option<E>): seq<TreeNode<T>>
    decreases ns, 0
  {
    if |ns| == 0 then []
    else if ForEach(ns[0], callback).Some? then Visited(ns[0], callback)
    else Visited(ns[0], callback) + VisitedChildren(ns[1..], callback)
  }

  /** The first error `callback` reports along `ns`. */
  function FirstError<T, E>(ns: seq<TreeNode<T>>, callback: TreeNode<T> -> Option<E>): Option<E> {
    if |ns| == 0 then None
    else if callback(ns[0]).Some? then callback(ns[0])
    else FirstError(ns[1..], callback)
  }

  /** The nodes of `ns` up to and including the first one on which `callback` reports an error. */
  function UpToFirstError<T, E>(ns: seq<TreeNode<T>>, callback: TreeNode<T> -> Option<E>): seq<TreeNode<T>> {
    if |ns| == 0 then []
    else if callback(ns[0]).Some? then [ns[0]]
    else [ns[0]] + UpToFirstError(ns[1..], callback)
  }

  lemma {:induction false} FirstErrorConcat<T, E>(a: seq<TreeNode<T>>, b: seq<TreeNode<T>>, callback: TreeNode<T> -> Option<E>)
    ensures FirstError(a + b, callback)
         == if FirstError(a, callback).Some? then FirstError(a, callback) else FirstError(b, callback)
    ensures UpToFirstError(a + b, callback)
         == if FirstError(a, callback).Some? then UpToFirstError(a, callback)
            else UpToFirstError(a, callback) + UpToFirstError(b, callback)
  {
    if |a| > 0 {
      assert (a + b)[1..] == a[1..] + b;
      FirstErrorConcat(a[1..], b, callback);
    } else {
      assert a + b == b;
    }
  }

  /**
   * ForEach is a pre-order walk: it calls `callback` on the nodes of the
   * pre-order list up to the first error, and returns that error.
   */
  lemma {:induction false} ForEachIsPreOrder<T, E>(n: TreeNode<T>, callback: TreeNode<T> -> Option<E>)
    ensures ForEach(n, callback) == FirstError(Nodes(n), callback)
    ensures Visited(n, callback) == UpToFirstError(Nodes(n), callback)
    decreases n, 1
  {
    ForEachChildIsPreOrder(n.children, callback);
    FirstErrorConcat([n], NodesEach(n.children), callback);
  }

  lemma {:induction false} ForEachChildIsPreOrder<T, E>(ns: seq<TreeNode<T>>, callback: TreeNode<T> -> Option<E>)
    ensures ForEachChild(ns, callback) == FirstError(NodesEach(ns), callback)
    ensures VisitedChildren(ns, callback) == UpToFirstError(NodesEach(ns), callback)
    decreases ns, 0
  {
    if |ns| > 0 {
      ForEachIsPreOrder(ns[0], callback);
      ForEachChildIsPreOrder(ns[1..], callback);
      FirstErrorConcat(Nodes(ns[0]), NodesEach(ns[1..]), callback);
    }
  }

  /** With a callback that never fails, ForEach visits every node, in the order Flatten lists them. */
  lemma ForEachWithoutErrors<T, E>(n: TreeNode<T>, callback: TreeNode<T> -> Option<E>)
    requires forall m :: callback(m).None?
    ensures ForEach(n, callback).None?
    ensures Values(Visited(n, callback)) == Flatten(n)
  {
    ForEachIsPreOrder(n, callback);
    FlattenIsPreOrder(n);
    NoErrorsVisitAll(Nodes(n), callback);
  }

  lemma NoErrorsVisitAll<T, E>(ns: seq<TreeNode<T>>, callback: TreeNode<T> -> Option<E>)
    requires forall m :: callback(m).None?
    ensures FirstError(ns, callback).None? && UpToFirstError(ns, callback) == ns
  {
  }

  /** `WithChildren`: the old children, then the new ones in order; the value is unchanged. */
  function WithChildren<T>(n: TreeNode<T>, children: seq<TreeNode<T>>): (r: TreeNode<T>)
    ensures r.value == n.value
    ensures |r.children| == |n.children| + |children|
    ensures r.children[..|n.children|] == n.children && r.children[|n.children|..] == children
  {
    TreeNode(n.value, n.children + children)
  }

  lemma {:induction false} FlattenEachConcat<T>(a: seq<TreeNode<T>>, b: seq<TreeNode<T>>)
    ensures FlattenEach(a + b) == FlattenEach(a) + FlattenEach(b)
    decreases |b|
  {
    if |b| == 0 {
      assert a + b == a;
    } else {
      var init, last := b[..|b| - 1], b[|b| - 1];
      assert (a + b)[..|a + b| - 1] == a + init;
      assert (a + b)[|a + b| - 1] == last;
      FlattenEachConcat(a, init);
      calc {
        FlattenEach(a + b);
        FlattenEach(a + init) + Flatten(last);
        FlattenEach(a) + FlattenEach(init) + Flatten(last);
        FlattenEach(a) + (FlattenEach(init) + Flatten(last));
        FlattenEach(a) + FlattenEach(b);
      }
    }
  }

  /** Adding children appends their flattenings after the node's own. */
  lemma {:induction false} FlattenWithChildren<T>(n: TreeNode<T>, children: seq<TreeNode<T>>)
    ensures Flatten(WithChildren(n, children)) == Flatten(n) + FlattenEach(children)
  {
    FlattenEachConcat(n.children, children);
    if IsLeaf(n) {
      assert FlattenEach(n.children) == [];
      assert n.children + children == children;
    }
    if |n.children + children| == 0 {
      assert children == [];
    }
  }

  /** A leaf is the general case with no children: its value, then nothing. */
  lemma FlattenUniform<T>(n: TreeNode<T>)
    ensures Flatten(n) == [n.value] + FlattenEach(n.children)
  {
  }

  /** The flattening of a list splits around any one of its trees. */
  lemma FlattenEachAround<T>(ns: seq<TreeNode<T>>, i: nat)
    requires i < |ns|
    ensures FlattenEach(ns) == FlattenEach(ns[..i]) + Flatten(ns[i]) + FlattenEach(ns[i + 1..])
  {
    FlattenEachSplit(ns, i + 1);
    FlattenEachPrefix(ns, i);
  }

  /** The flattening of a list is that of its first `k` trees, then that of the rest. */
  lemma FlattenEachSplit<T>(ns: seq<TreeNode<T>>, k: nat)
    requires k <= |ns|
    ensures FlattenEach(ns) == FlattenEach(ns[..k]) + FlattenEach(ns[k..])
  {
    assert ns == ns[..k] + ns[k..];
    FlattenEachConcat(ns[..k], ns[k..]);
  }

  /** One more tree of a prefix appends its flattening. */
  lemma FlattenEachPrefix<T>(ns: seq<TreeNode<T>>, i: nat)
    requires i < |ns|
    ensures FlattenEach(ns[..i + 1]) == FlattenEach(ns[..i]) + Flatten(ns[i])
  {
    assert ns[..i + 1][..i] == ns[..i];
  }

  /** A value is in the flattening of a list exactly when it is in the flattening of one of its trees. */
  lemma {:induction false} FlattenEachMember<T>(ns: seq<TreeNode<T>>, x: T)
    ensures x in FlattenEach(ns) <==> exists i :: 0 <= i < |ns| && x in Flatten(ns[i])
    decreases |ns|
  {
    if |ns| > 0 {
      var init := ns[..|ns| - 1];
      FlattenEachMember(init, x);
      if x in FlattenEach(ns) && x !in Flatten(ns[|ns| - 1]) {
        var i :| 0 <= i < |init| && x in Flatten(init[i]);
        assert init[i] == ns[i];
      }
      if exists i :: 0 <= i < |ns| && x in Flatten(ns[i]) {
        var i :| 0 <= i < |ns| && x in Flatten(ns[i]);
        if i < |ns| - 1 {
          assert init[i] == ns[i];
        }
      }
    }
  }
}
