/**
 * `DependencyArray.Equals`: two lists of dependencies are equal when they
 * have the same length and every dependency of the second equals the
 * dependency of the same name in the first (the last one of that name).
 */
module DependencyArrays {
  import opened Dependencies
  import opened Versions

  /** The name → dependency map built by writing the list's entries in order: the last of each name wins. */
  function LastByName(deps: seq<Dependency>): (m: map<string, Dependency>)
    ensures forall i :: 0 <= i < |deps| ==> deps[i].name in m
    ensures forall n :: n in m ==> m[n].name == n
  {
    if |deps| == 0 then map[]
    else LastByName(deps[..|deps| - 1])[deps[|deps| - 1].name := deps[|deps| - 1]]
  }

  predicate DistinctNames(deps: seq<Dependency>) {
    forall i, j :: 0 <= i < j < |deps| ==> deps[i].name != deps[j].name
  }

  /** What `Equals` decides. */
  predicate ArrayEquals(deps: seq<Dependency>, other: seq<Dependency>) {
    |deps| == |other|
    && forall j :: 0 <= j < |other| ==>
         other[j].name in LastByName(deps) && Dependencies.Equals(LastByName(deps)[other[j].name], other[j])
  }

  /** `DependencyArray.Equals`: builds the map in a first loop, then scans `other` and returns at the first mismatch. */
  method Equals(deps: seq<Dependency>, other: seq<Dependency>) returns (r: bool)
    ensures r <==> ArrayEquals(deps, other)
  {
    if |deps| != |other| {
      return false;
    }
    var depMap: map<string, Dependency> := map[];
    for i := 0 to |deps|
      invariant depMap == LastByName(deps[..i])
    {
      assert deps[..i + 1][..i] == deps[..i];
      depMap := depMap[deps[i].name := deps[i]];
    }
    assert deps[..|deps|] == deps;
    for j := 0 to |other|
      invariant forall k :: 0 <= k < j ==> other[k].name in depMap && depMap[other[k].name] == other[k]
    {
      var otherDep := other[j];
      if otherDep.name !in depMap || !Dependencies.Equals(depMap[otherDep.name], otherDep) {
        return false;
      }
    }
    return true;
  }

  /** A name is in the map exactly when some entry has it, and maps to the last such entry. */
  lemma {:induction false} LastByNameLookup(deps: seq<Dependency>, n: string)
    ensures n in LastByName(deps) <==> exists i :: 0 <= i < |deps| && deps[i].name == n
    ensures n in LastByName(deps) ==>
              exists i :: 0 <= i < |deps| && deps[i] == LastByName(deps)[n]
                          && forall j :: i < j < |deps| ==> deps[j].name != n
  {
    LastByNameHas(deps, n);
    if n in LastByName(deps) {
      var i := LastByNameLast(deps, n);
    }
  }

  lemma {:induction false} LastByNameHas(deps: seq<Dependency>, n: string)
    ensures n in LastByName(deps) <==> exists i :: 0 <= i < |deps| && deps[i].name == n
  {
    if |deps| > 0 {
      var init := deps[..|deps| - 1];
      LastByNameHas(init, n);
      if exists i :: 0 <= i < |init| && init[i].name == n {
        var i :| 0 <= i < |init| && init[i].name == n;
        assert deps[i].name == n;
      }
      if exists i :: 0 <= i < |deps| && deps[i].name == n {
        var i :| 0 <= i < |deps| && deps[i].name == n;
        if i < |init| {
          assert init[i].name == n;
        }
      }
    }
  }

  lemma {:induction false} LastByNameLast(deps: seq<Dependency>, n: string) returns (i: nat)
    requires n in LastByName(deps)
    ensures i < |deps| && deps[i] == LastByName(deps)[n]
    ensures forall j :: i < j < |deps| ==> deps[j].name != n
  {
    var last := |deps| - 1;
    if deps[last].name == n {
      i := last;
    } else {
      var init := deps[..last];
      assert n in LastByName(init);
      i := LastByNameLast(init, n);
      assert deps[i] == init[i];
    }
  }

  /** With distinct names, the map holds every entry under its own name. */
  lemma DistinctLookup(deps: seq<Dependency>, i: nat)
    requires DistinctNames(deps) && i < |deps|
    ensures LastByName(deps)[deps[i].name] == deps[i]
  {
    LastByNameLookup(deps, deps[i].name);
  }

  /** A list of distinctly named dependencies equals itself (both lists of the source's test do). */
  lemma SelfEquals(deps: seq<Dependency>)
    requires DistinctNames(deps)
    ensures ArrayEquals(deps, deps)
  {
    forall j | 0 <= j < |deps|
      ensures deps[j].name in LastByName(deps) && LastByName(deps)[deps[j].name] == deps[j]
    {
      DistinctLookup(deps, j);
    }
  }

  /** Lists of different lengths are never equal. */
  lemma DifferentLengths(deps: seq<Dependency>, other: seq<Dependency>)
    requires |deps| != |other|
    ensures !ArrayEquals(deps, other)
  {
  }

  /** A same-named entry pinned differently (another kind, as in the source's test) makes the lists unequal. */
  lemma {:induction false} DifferentVersionUnequal(deps: seq<Dependency>, other: seq<Dependency>, i: nat, j: nat)
    requires DistinctNames(deps) && i < |deps| && j < |other|
    requires deps[i].name == other[j].name && deps[i].version != other[j].version
    ensures !ArrayEquals(deps, other)
  {
    DistinctLookup(deps, i);
  }

  /** The map only depends on which entries there are when the names are distinct. */
  lemma LastByNamePermutation(deps: seq<Dependency>, perm: seq<Dependency>)
    requires DistinctNames(deps) && DistinctNames(perm) && multiset(deps) == multiset(perm)
    ensures LastByName(deps) == LastByName(perm)
  {
    var a, b := LastByName(deps), LastByName(perm);
    forall n ensures n in a <==> n in b {
      LastByNameLookup(deps, n);
      LastByNameLookup(perm, n);
      if n in a {
        var i :| 0 <= i < |deps| && deps[i].name == n;
        assert deps[i] in multiset(perm);
        var k :| 0 <= k < |perm| && perm[k] == deps[i];
      }
      if n in b {
        var i :| 0 <= i < |perm| && perm[i].name == n;
        assert perm[i] in multiset(deps);
        var k :| 0 <= k < |deps| && deps[k] == perm[i];
      }
    }
    forall n | n in a ensures a[n] == b[n] {
      LastByNameLookup(deps, n);
      var i :| 0 <= i < |deps| && deps[i].name == n;
      assert deps[i] in multiset(perm);
      var k :| 0 <= k < |perm| && perm[k] == deps[i];
      DistinctLookup(deps, i);
      DistinctLookup(perm, k);
    }
  }

  /** For lists with distinct names, reordering either list does not change the verdict. */
  lemma OrderIrrelevant(deps: seq<Dependency>, perm: seq<Dependency>, other: seq<Dependency>, otherPerm: seq<Dependency>)
    requires DistinctNames(deps) && DistinctNames(perm) && multiset(deps) == multiset(perm)
    requires multiset(other) == multiset(otherPerm)
    ensures ArrayEquals(deps, other) <==> ArrayEquals(perm, otherPerm)
  {
    LastByNamePermutation(deps, perm);
    var m := LastByName(deps);
    assert |deps| == |multiset(deps)| == |multiset(perm)| == |perm|;
    assert |other| == |multiset(other)| == |multiset(otherPerm)| == |otherPerm|;
    if ArrayEquals(deps, other) {
      forall j | 0 <= j < |otherPerm| ensures otherPerm[j].name in m && m[otherPerm[j].name] == otherPerm[j] {
        assert otherPerm[j] in multiset(other);
        var k :| 0 <= k < |other| && other[k] == otherPerm[j];
      }
    }
    if ArrayEquals(perm, otherPerm) {
      forall j | 0 <= j < |other| ensures other[j].name in m && m[other[j].name] == other[j] {
        assert other[j] in multiset(otherPerm);
        var k :| 0 <= k < |otherPerm| && otherPerm[k] == other[j];
      }
    }
  }

  /**
   * With repeated names only the last of each name in the first list is
   * compared: `[x, y]` equals `[y, y]` when `x` and `y` share a name.
   */
  lemma RepeatedNameShadowed(x: Dependency, y: Dependency)
    requires x.name == y.name
    ensures ArrayEquals([x, y], [y, y])
  {
    assert [x, y][..1] == [x];
  }
}
