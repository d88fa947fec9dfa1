/**
 * `ResolvedDependency`: one entry of the lockfile — a package pinned to a
 * version and commit SHA, where it is installed, and the dependencies it
 * declares.
 */
module ResolvedDependencies {
  import opened Wrappers
  import opened Versions
  import opened Dependencies
  import opened DependencyArrays
  import DependencySets
  import Listings

  datatype ResolvedDependency = ResolvedDependency(
    name: string, version: string, sha: string, installPath: string, dependencies: seq<Dependency>)

  /** `WithDependencies`: a copy with the given dependency list and every other field as it was. */
  function WithDependencies(rd: ResolvedDependency, deps: seq<Dependency>): (r: ResolvedDependency)
    ensures r.dependencies == deps
    ensures r.name == rd.name && r.version == rd.version && r.sha == rd.sha && r.installPath == rd.installPath
  {
    rd.(dependencies := deps)
  }

  /** `i` is the last index of an entry named `name`. */
  predicate IsLastIndexOf(deps: seq<Dependency>, i: int, name: string) {
    0 <= i < |deps| && deps[i].name == name && forall j :: i < j < |deps| ==> deps[j].name != name
  }

  /**
   * `AddDependency`: finds the last entry of the name; overwrites it there,
   * or appends the new dependency when there is none.
   */
  method AddDependency(rd: ResolvedDependency, name: string, version: Version) returns (r: ResolvedDependency)
    ensures r == rd.(dependencies := r.dependencies)
    ensures (forall i :: 0 <= i < |rd.dependencies| ==> rd.dependencies[i].name != name)
            ==> r.dependencies == rd.dependencies + [Dependency(name, version)]
    ensures (exists i :: 0 <= i < |rd.dependencies| && rd.dependencies[i].name == name)
            ==> exists i :: IsLastIndexOf(rd.dependencies, i, name)
                            && r.dependencies == rd.dependencies[i := Dependency(name, version)]
    ensures LastByName(r.dependencies) == LastByName(rd.dependencies)[name := Dependency(name, version)]
  {
    var newDep := Dependency(name, version);
    var deps := rd.dependencies;
    var foundIndex := -1;
    for i := 0 to |deps|
      invariant foundIndex == -1 ==> forall j :: 0 <= j < i ==> deps[j].name != name
      invariant foundIndex != -1 ==> 0 <= foundIndex < i && deps[foundIndex].name == name
                                     && forall j :: foundIndex < j < i ==> deps[j].name != name
    {
      if deps[i].name == name {
        foundIndex := i;
      }
    }
    if foundIndex == -1 {
      r := rd.(dependencies := deps + [newDep]);
      assert (deps + [newDep])[..|deps|] == deps;
    } else {
      r := rd.(dependencies := deps[foundIndex := newDep]);
      LastByNameOverwrite(deps, foundIndex, newDep);
    }
  }

  /** Overwriting the last entry of a name changes what the name maps to and nothing else. */
  lemma {:induction false} LastByNameOverwrite(deps: seq<Dependency>, i: nat, d: Dependency)
    requires IsLastIndexOf(deps, i, d.name)
    ensures LastByName(deps[i := d]) == LastByName(deps)[d.name := d]
    decreases |deps|
  {
    var init := deps[..|deps| - 1];
    var last := deps[|deps| - 1];
    if i == |deps| - 1 {
      assert deps[i := d][..|deps| - 1] == init;
      UpdateTwice(LastByName(init), d.name, last, d);
    } else {
      assert deps[i := d][..|deps| - 1] == init[i := d];
      LastByNameOverwrite(init, i, d);
      assert deps[i := d][|deps| - 1] == last;
      UpdatesCommute(LastByName(init), d.name, d, last.name, last);
    }
  }

  lemma UpdateTwice(m: map<string, Dependency>, k: string, a: Dependency, b: Dependency)
    ensures m[k := a][k := b] == m[k := b]
  {
  }

  lemma UpdatesCommute(m: map<string, Dependency>, k1: string, v1: Dependency, k2: string, v2: Dependency)
    requires k1 != k2
    ensures m[k1 := v1][k2 := v2] == m[k2 := v2][k1 := v1]
  {
  }

  /** `MarshalJSON`: the dependencies as a name → version specifier map, a later entry of a name overwriting an earlier one. */
  method Marshal(rd: ResolvedDependency) returns (m: map<string, string>)
    ensures m == DependencySets.Specifiers(LastByName(rd.dependencies))
  {
    m := map[];
    var deps := rd.dependencies;
    for i := 0 to |deps|
      invariant m == DependencySets.Specifiers(LastByName(deps[..i]))
    {
      assert deps[..i + 1][..i] == deps[..i];
      m := m[deps[i].name := String(deps[i].version)];
    }
    assert deps[..|deps|] == deps;
  }

  /**
   * `UnmarshalJSON`: appends one dependency per JSON entry, in map order
   * (one slot per key, even where two keys parse alike), to the list
   * already held, and stops at the first entry that does not parse.
   */
  method Unmarshal(rd: ResolvedDependency, input: map<string, string>,
                   parse: DependencySets.Parser)
    returns (r: Result<ResolvedDependency>)
    ensures r.Ok? <==> DependencySets.AllParse(input, parse)
    ensures r.Err? ==> exists n :: n in input && parse(n, input[n]) == Err(r.error)
    ensures r.Ok? ==> r.value == rd.(dependencies := r.value.dependencies)
    ensures r.Ok? ==>
              var deps := r.value.dependencies;
              var parsed := DependencySets.Parsed(input, parse);
              |deps| == |rd.dependencies| + |input| && deps[..|rd.dependencies|] == rd.dependencies
              && DependencySets.ListsEntries(deps[|rd.dependencies|..], parsed)
  {
    var added: seq<Dependency> := [];
    ghost var order: seq<string> := [];
    var keys := input.Keys;
    while keys != {}
      invariant keys <= input.Keys
      invariant |order| == |added| && |added| + |keys| == |input|
      invariant forall j :: 0 <= j < |order| ==>
                  order[j] in input && order[j] !in keys
                  && parse(order[j], input[order[j]]) == Ok(added[j])
      invariant forall a, b :: 0 <= a < b < |order| ==> order[a] != order[b]
      invariant forall k :: k in input && k !in keys ==> k in order
      decreases keys
    {
      var packageName :| packageName in keys;
      var dep := parse(packageName, input[packageName]);
      if dep.Err? {
        return Err(dep.error);
      }
      added := added + [dep.value];
      order := order + [packageName];
      keys := keys - {packageName};
    }
    ParsedInOrder(input, order, added, parse);
    r := Ok(rd.(dependencies := rd.dependencies + added));
    assert r.value.dependencies[|rd.dependencies|..] == added;
  }

  /** Entries parsed along an order that visits every JSON key once are the parsed map's values. */
  lemma ParsedInOrder(input: map<string, string>, order: seq<string>, added: seq<Dependency>,
                      parse: DependencySets.Parser)
    requires |order| == |added| == |input|
    requires forall j :: 0 <= j < |order| ==>
               order[j] in input && parse(order[j], input[order[j]]) == Ok(added[j])
    requires forall a, b :: 0 <= a < b < |order| ==> order[a] != order[b]
    requires forall k :: k in input ==> k in order
    ensures DependencySets.AllParse(input, parse)
    ensures DependencySets.ListsEntries(added, DependencySets.Parsed(input, parse))
  {
    forall n | n in input ensures parse(n, input[n]).Ok? {
      var j :| 0 <= j < |order| && order[j] == n;
    }
    var parsed := DependencySets.Parsed(input, parse);
    forall j | 0 <= j < |order| ensures added[j] == parsed[order[j]] {
      DependencySets.ParsedEntry(input, parse, order[j]);
    }
    assert parsed.Keys == input.Keys;
    Listings.ListedAlong(parsed, order, added);
    assert Listings.Visited(order) == parsed.Keys;
  }

  /**
   * Marshalling a list of distinctly named, restorable dependencies and
   * unmarshalling the map gives back exactly the dependencies of the list.
   */
  lemma MarshalRoundTrip(deps: seq<Dependency>, latest: string -> Result<Version>, isSemVerRange: string -> bool)
    requires DistinctNames(deps)
    requires forall i :: 0 <= i < |deps| ==> Restorable(deps[i], latest, isSemVerRange)
    ensures DependencySets.AllParse(DependencySets.Specifiers(LastByName(deps)), DependencySets.FromSpecifiers(latest, isSemVerRange))
    ensures forall d :: d in DependencySets.Parsed(DependencySets.Specifiers(LastByName(deps)), DependencySets.FromSpecifiers(latest, isSemVerRange)).Values
                        <==> d in deps
  {
    var m := LastByName(deps);
    forall n | n in m ensures Restorable(m[n], latest, isSemVerRange) {
      LastByNameLookup(deps, n);
    }
    DependencySets.MarshalRoundTrip(m, latest, isSemVerRange);
    forall d ensures d in m.Values <==> d in deps {
      if d in deps {
        var i :| 0 <= i < |deps| && deps[i] == d;
        DistinctLookup(deps, i);
        assert m[d.name] == d;
      }
      if d in m.Values {
        var n :| n in m && m[n] == d;
        LastByNameLookup(deps, n);
      }
    }
  }
}
