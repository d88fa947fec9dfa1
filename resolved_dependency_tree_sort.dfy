/**
 * `SortAllByNames`: a stable sort of a forest by dependency name, applied
 * to the roots and then, recursively, to every node's children.
 */
module ResolvedDependencyTreeSort {
  import opened Strs
  import opened TreeNodes
  import opened ResolvedDependencies
  import opened ResolvedDependencyTrees

  /** No node's name is less than the name of a node before it. */
  predicate SortedByName(s: seq<Node>) {
    forall i, j :: 0 <= i < j < |s| ==> !Less(s[j].value.name, s[i].value.name)
  }

  /** Every level of the forest is sorted by name. */
  predicate SortedDeep(t: seq<Node>)
    decreases t
  {
    SortedByName(t) && forall i :: 0 <= i < |t| ==> SortedDeep(t[i].children)
  }

  /** The nodes of `s` named `name`, in their order in `s`. */
  function NamedAs(s: seq<Node>, name: string): seq<Node> {
    if |s| == 0 then []
    else NamedAs(s[..|s| - 1], name) + (if s[|s| - 1].value.name == name then [s[|s| - 1]] else [])
  }

  /** One step of a stable insertion sort: `x` goes after every node whose name is not greater than its own. */
  function Insert(x: Node, s: seq<Node>): (r: seq<Node>)
    ensures |r| == |s| + 1
  {
    if |s| == 0 || !Less(x.value.name, s[|s| - 1].value.name) then s + [x]
    else Insert(x, s[..|s| - 1]) + [s[|s| - 1]]
  }

  /** The stable sort by name, as successive insertions of the nodes from left to right. */
  function StableSort(s: seq<Node>): (r: seq<Node>)
    ensures |r| == |s|
  {
    if |s| == 0 then [] else Insert(s[|s| - 1], StableSort(s[..|s| - 1]))
  }

  // ---- the stable sort is a sort, a permutation, and stable ----

  lemma {:induction false} InsertPermutes(x: Node, s: seq<Node>)
    ensures multiset(Insert(x, s)) == multiset(s) + multiset{x}
    decreases |s|
  {
    if |s| > 0 && Less(x.value.name, s[|s| - 1].value.name) {
      var init, last := s[..|s| - 1], s[|s| - 1];
      InsertPermutes(x, init);
      assert s == init + [last];
      assert multiset(s) == multiset(init) + multiset{last};
    }
  }

  lemma {:induction false} StableSortPermutes(s: seq<Node>)
    ensures multiset(StableSort(s)) == multiset(s)
    decreases |s|
  {
    if |s| > 0 {
      var init, last := s[..|s| - 1], s[|s| - 1];
      StableSortPermutes(init);
      InsertPermutes(last, StableSort(init));
      assert s == init + [last];
      assert multiset(s) == multiset(init) + multiset{last};
    }
  }

  /** `!Less` is transitive, because `Less` is a strict total order. */
  lemma NotLessTransitive(a: string, b: string, c: string)
    requires !Less(b, a) && !Less(c, b)
    ensures !Less(c, a)
  {
    LessTotal(a, b);
    LessTotal(b, c);
    if Less(c, a) {
      if a == b {
        LessTransitive(c, a, c);
      } else {
        LessTransitive(c, a, b);
      }
      LessIrreflexive(c);
    }
  }

  lemma {:induction false} InsertSorted(x: Node, s: seq<Node>)
    requires SortedByName(s)
    ensures SortedByName(Insert(x, s))
    decreases |s|
  {
    if |s| == 0 {
    } else if !Less(x.value.name, s[|s| - 1].value.name) {
      var r := s + [x];
      forall i, j | 0 <= i < j < |r| ensures !Less(r[j].value.name, r[i].value.name) {
        if j == |s| && i < |s| - 1 {
          NotLessTransitive(s[i].value.name, s[|s| - 1].value.name, x.value.name);
        }
      }
    } else {
      var init, last := s[..|s| - 1], s[|s| - 1];
      InsertSorted(x, init);
      InsertPermutes(x, init);
      var m := Insert(x, init);
      var r := m + [last];
      forall i, j | 0 <= i < j < |r| ensures !Less(r[j].value.name, r[i].value.name) {
        if j == |m| {
          assert r[i] in multiset(init) + multiset{x} by {
            assert r[i] == m[i];
          }
          if r[i] == x {
            if Less(last.value.name, x.value.name) {
              LessTransitive(x.value.name, last.value.name, x.value.name);
              LessIrreflexive(x.value.name);
            }
          } else {
            var k :| 0 <= k < |init| && init[k] == r[i];
            assert init[k] == s[k];
          }
        }
      }
    }
  }

  lemma {:induction false} StableSortSorted(s: seq<Node>)
    ensures SortedByName(StableSort(s))
    decreases |s|
  {
    if |s| > 0 {
      StableSortSorted(s[..|s| - 1]);
      InsertSorted(s[|s| - 1], StableSort(s[..|s| - 1]));
    }
  }

  lemma NamedAsAppend(s: seq<Node>, x: Node, name: string)
    ensures NamedAs(s + [x], name) == NamedAs(s, name) + (if x.value.name == name then [x] else [])
  {
    assert (s + [x])[..|s|] == s;
  }

  /** Inserting `x` places it after every node of its own name. */
  lemma {:induction false} InsertStable(x: Node, s: seq<Node>, name: string)
    ensures NamedAs(Insert(x, s), name) == NamedAs(s, name) + (if x.value.name == name then [x] else [])
    decreases |s|
  {
    if |s| == 0 || !Less(x.value.name, s[|s| - 1].value.name) {
      NamedAsAppend(s, x, name);
    } else {
      var init, last := s[..|s| - 1], s[|s| - 1];
      InsertStable(x, init, name);
      NamedAsAppend(Insert(x, init), last, name);
      NamedAsAppend(init, last, name);
      assert s == init + [last];
      LessIrreflexive(x.value.name);
    }
  }

  /** Stability: the nodes of each name keep their relative order. */
  lemma {:induction false} StableSortStable(s: seq<Node>, name: string)
    ensures NamedAs(StableSort(s), name) == NamedAs(s, name)
    decreases |s|
  {
    if |s| > 0 {
      var init, last := s[..|s| - 1], s[|s| - 1];
      StableSortStable(init, name);
      InsertStable(last, StableSort(init), name);
      NamedAsAppend(init, last, name);
      assert s == init + [last];
    }
  }

  // ---- sorting the whole forest ----

  /** A node with its children sorted at every level. */
  function SortTree(n: Node): (r: Node)
    decreases n, 3
  {
    TreeNode(n.value, SortAll(n.children))
  }

  /** Every node's children sorted at every level, then the list itself sorted. */
  function SortAll(t: seq<Node>): (r: seq<Node>)
    decreases t, 2
  {
    StableSort(SortEach(t))
  }

  function SortEach(t: seq<Node>): (r: seq<Node>)
    decreases t, 1
    ensures |r| == |t|
  {
    seq(|t|, i requires 0 <= i < |t| => SortTree(t[i]))
  }

  lemma SortEachSlice(t: seq<Node>, k: nat)
    requires k <= |t|
    ensures SortEach(t[..k]) == SortEach(t)[..k]
  {
  }

  /** Sorting the children first or the list first gives the same forest. */
  lemma {:induction false} InsertCommutes(x: Node, s: seq<Node>)
    ensures SortEach(Insert(x, s)) == Insert(SortTree(x), SortEach(s))
    decreases |s|
  {
    if |s| == 0 || !Less(x.value.name, s[|s| - 1].value.name) {
      assert SortEach(s + [x]) == SortEach(s) + [SortTree(x)];
    } else {
      var init, last := s[..|s| - 1], s[|s| - 1];
      InsertCommutes(x, init);
      SortEachSlice(s, |s| - 1);
      assert SortEach(Insert(x, init) + [last]) == SortEach(Insert(x, init)) + [SortTree(last)];
    }
  }

  lemma {:induction false} StableSortCommutes(s: seq<Node>)
    ensures SortEach(StableSort(s)) == StableSort(SortEach(s))
    decreases |s|
  {
    if |s| > 0 {
      var init, last := s[..|s| - 1], s[|s| - 1];
      StableSortCommutes(init);
      InsertCommutes(last, StableSort(init));
      SortEachSlice(s, |s| - 1);
    }
  }

  /** Sorting the list first and each node's children afterwards is `SortAll`. */
  lemma SortAllInTwoSteps(s: seq<Node>)
    ensures SortEach(StableSort(s)) == SortAll(s)
  {
    StableSortCommutes(s);
  }

  /** `SortAll` leaves every level sorted. */
  lemma {:induction false} SortAllSorted(t: seq<Node>)
    ensures SortedDeep(SortAll(t))
    decreases t
  {
    var m := SortEach(t);
    StableSortSorted(m);
    StableSortPermutes(m);
    var r := StableSort(m);
    forall i | 0 <= i < |r| ensures SortedDeep(r[i].children) {
      assert r[i] in multiset(m);
      var k :| 0 <= k < |t| && m[k] == r[i];
      assert m[k] == SortTree(t[k]);
      SortAllSorted(t[k].children);
    }
  }

  // ---- sorting keeps the forest's contents ----

  lemma {:induction false} InsertFlatten(x: Node, s: seq<Node>)
    ensures multiset(FlattenEach(Insert(x, s))) == multiset(FlattenEach(s)) + multiset(TreeNodes.Flatten(x))
    decreases |s|
  {
    if |s| == 0 || !Less(x.value.name, s[|s| - 1].value.name) {
      assert (s + [x])[..|s|] == s;
    } else {
      var init, last := s[..|s| - 1], s[|s| - 1];
      InsertFlatten(x, init);
      var m := Insert(x, init);
      assert (m + [last])[..|m|] == m;
    }
  }

  lemma {:induction false} StableSortFlatten(s: seq<Node>)
    ensures multiset(FlattenEach(StableSort(s))) == multiset(FlattenEach(s))
    decreases |s|
  {
    if |s| > 0 {
      StableSortFlatten(s[..|s| - 1]);
      InsertFlatten(s[|s| - 1], StableSort(s[..|s| - 1]));
    }
  }

  lemma {:induction false} SortTreeFlatten(n: Node)
    ensures multiset(TreeNodes.Flatten(SortTree(n))) == multiset(TreeNodes.Flatten(n))
    decreases n, 3
  {
    SortAllContents(n.children);
    FlattenUniform(n);
    FlattenUniform(SortTree(n));
  }

  /** `SortAll` only reorders: the forest holds the same dependencies as before. */
  lemma {:induction false} SortAllContents(t: seq<Node>)
    ensures multiset(FlattenEach(SortAll(t))) == multiset(FlattenEach(t))
    decreases t, 2
  {
    SortEachFlatten(t);
    StableSortFlatten(SortEach(t));
  }

  lemma {:induction false} SortEachFlatten(t: seq<Node>)
    ensures multiset(FlattenEach(SortEach(t))) == multiset(FlattenEach(t))
    decreases t, 1
  {
    if |t| > 0 {
      SortEachFlatten(t[..|t| - 1]);
      SortEachSlice(t, |t| - 1);
      SortTreeFlatten(t[|t| - 1]);
    }
  }

  /** A node of the sorted list is no larger than the whole list it came from. */
  lemma SortedMemberCount(s: seq<Node>, i: nat)
    requires i < |s|
    ensures Count(StableSort(s)[i]) < CountEach(s) + 1
  {
    StableSortPermutes(s);
    assert StableSort(s)[i] in multiset(s);
    CountMember(StableSort(s)[i], s);
  }

  lemma {:induction false} CountMember(x: Node, s: seq<Node>)
    requires x in s
    ensures Count(x) <= CountEach(s)
    decreases |s|
  {
    if s[0] != x {
      CountMember(x, s[1..]);
    }
  }

  lemma SortEachPointwise(t: seq<Node>, r: seq<Node>)
    requires |r| == |t|
    requires forall k :: 0 <= k < |t| ==> r[k] == SortTree(t[k])
    ensures r == SortEach(t)
  {
  }

  // ---- the in-place sorts ----

  /** `slices.SortStableFunc` by name, as an insertion sort in place. */
  method SortByName(a: array<Node>)
    modifies a
    ensures a[..] == StableSort(old(a[..]))
  {
    ghost var input := a[..];
    for i := 0 to a.Length
      invariant a[..i] == StableSort(input[..i])
      invariant forall k :: i <= k < a.Length ==> a[k] == input[k]
    {
      assert input[..i + 1] == input[..i] + [input[i]];
      InsertLast(a, i);
    }
    assert input[..a.Length] == input;
  }

  /** Moves `a[i]` left past every greater name in the sorted prefix `a[..i]`. */
  method InsertLast(a: array<Node>, i: nat)
    requires i < a.Length
    modifies a
    ensures a[..i + 1] == Insert(old(a[i]), old(a[..i]))
    ensures forall k :: i < k < a.Length ==> a[k] == old(a[k])
  {
    var x := a[i];
    var j := OpenGap(a, i, x);
    ShiftDone(a[..], old(a[..i]), old(a[..]), j, x);
    a[j] := x;
  }

  /** The loop of the insertion: moves right every entry of `a[..i]` whose name comes after `x`'s. */
  method OpenGap(a: array<Node>, i: nat, x: Node) returns (j: nat)
    requires i < a.Length
    modifies a
    ensures Shifting(a[..], old(a[..i]), old(a[..]), j)
    ensures Insert(x, old(a[..i])) == old(a[..i])[..j] + [x] + old(a[..i])[j..]
  {
    ghost var sorted, orig := a[..i], a[..];
    j := i;
    assert sorted[..i] == sorted;
    while j > 0 && Less(x.value.name, a[j - 1].value.name)
      invariant Shifting(a[..], sorted, orig, j)
      invariant Insert(x, sorted) == Insert(x, sorted[..j]) + sorted[j..]
    {
      InsertStep(x, sorted, j);
      ShiftStep(a[..], sorted, orig, j);
      a[j] := a[j - 1];
      j := j - 1;
    }
    InsertStop(x, sorted, j);
  }

  /**
   * The state of `InsertLast` with the gap at `j`: the sorted prefix before
   * it, the sorted entries from `j` on moved one place right, and the rest
   * of the array as it was.
   */
  ghost predicate Shifting(cur: seq<Node>, sorted: seq<Node>, orig: seq<Node>, j: nat) {
    |cur| == |orig| && |sorted| < |cur| && j <= |sorted|
    && (forall k :: 0 <= k < j ==> cur[k] == sorted[k])
    && (forall k :: j < k <= |sorted| ==> cur[k] == sorted[k - 1])
    && (forall k :: |sorted| < k < |cur| ==> cur[k] == orig[k])
  }

  lemma ShiftStep(cur: seq<Node>, sorted: seq<Node>, orig: seq<Node>, j: nat)
    requires Shifting(cur, sorted, orig, j) && j > 0
    ensures Shifting(cur[j := cur[j - 1]], sorted, orig, j - 1)
  {
  }

  lemma ShiftDone(cur: seq<Node>, sorted: seq<Node>, orig: seq<Node>, j: nat, x: Node)
    requires Shifting(cur, sorted, orig, j)
    ensures cur[j := x][..|sorted| + 1] == sorted[..j] + [x] + sorted[j..]
    ensures forall k :: |sorted| < k < |cur| ==> cur[j := x][k] == orig[k]
  {
    Placed(cur[j := x][..|sorted| + 1], sorted, x, j);
  }

  /** A sequence that holds `sorted` with `x` at `j` is `sorted[..j] + [x] + sorted[j..]`. */
  lemma Placed(s: seq<Node>, sorted: seq<Node>, x: Node, j: nat)
    requires |s| == |sorted| + 1 && j <= |sorted| && s[j] == x
    requires forall k :: 0 <= k < j ==> s[k] == sorted[k]
    requires forall k :: j < k < |s| ==> s[k] == sorted[k - 1]
    ensures s == sorted[..j] + [x] + sorted[j..]
  {
  }

  /** While `x` belongs before `sorted[j - 1]`, the insertion point moves one place left. */
  lemma InsertStep(x: Node, sorted: seq<Node>, j: nat)
    requires 0 < j <= |sorted| && Less(x.value.name, sorted[j - 1].value.name)
    ensures Insert(x, sorted[..j]) + sorted[j..] == Insert(x, sorted[..j - 1]) + sorted[j - 1..]
  {
    assert sorted[..j][..j - 1] == sorted[..j - 1];
    assert sorted[j - 1..] == [sorted[j - 1]] + sorted[j..];
  }

  /** Once nothing before `j` is greater than `x`, `x` goes at `j`. */
  lemma InsertStop(x: Node, sorted: seq<Node>, j: nat)
    requires j <= |sorted|
    requires j == 0 || !Less(x.value.name, sorted[j - 1].value.name)
    ensures Insert(x, sorted[..j]) == sorted[..j] + [x]
  {
  }

  /** A fresh array holding `s`: the backing array of a Go slice. */
  method ToArray(s: seq<Node>) returns (a: array<Node>)
    ensures fresh(a) && a[..] == s
  {
    a := new Node[|s|](k requires 0 <= k < |s| => s[k]);
  }

  /** `SortAllByNames`: sorts the list in place, then each node's children. */
  method SortAllByNames(t: array<Node>)
    modifies t
    ensures t[..] == SortAll(old(t[..]))
    decreases CountEach(t[..]), 2
  {
    ghost var input := t[..];
    SortByName(t);
    forall k | 0 <= k < t.Length
      ensures Count(t[k]) <= CountEach(input)
    {
      SortedMemberCount(input, k);
    }
    SortEachInPlace(t, CountEach(input));
    SortAllInTwoSteps(input);
  }

  /** The loop of `SortAllByNames` over the sorted list: each node's children sorted in turn. */
  method SortEachInPlace(t: array<Node>, ghost bound: nat)
    requires forall k :: 0 <= k < t.Length ==> Count(t[k]) <= bound
    modifies t
    ensures t[..] == SortEach(old(t[..]))
    decreases bound, 1
  {
    ghost var input := t[..];
    for i := 0 to t.Length
      invariant forall k :: 0 <= k < i ==> t[k] == SortTree(input[k])
      invariant forall k :: i <= k < t.Length ==> t[k] == input[k]
    {
      t[i] := SortChildren(t[i]);
    }
    SortEachPointwise(input, t[..]);
  }

  /** One node of that loop: its children copied to a backing array and sorted there. */
  method SortChildren(node: Node) returns (r: Node)
    ensures r == SortTree(node)
    decreases Count(node), 0
  {
    var children := ToArray(node.children);
    SortAllByNames(children);
    r := TreeNode(node.value, children[..]);
  }
}
