/**
 * `DependencySet`: the dependencies of a manifest, a map from package name
 * to dependency that later additions of the same name overwrite. Go map
 * iteration has no fixed order; the loops below pick the next key with
 * `:|`, so what they promise holds for every order.
 */
module DependencySets {
  import opened Wrappers
  import opened Strs
  import opened Versions
  import opened Dependencies
  import DependencyArrays
  import opened Listings

  /** Every entry is stored under its own name: what `AddDependency` maintains. */
  predicate KeyedByName(m: map<string, Dependency>) {
    forall n :: n in m ==> m[n].name == n
  }

  /** What `Equals` decides: same size, and each entry of `other` equals the entry of its name. */
  predicate SetEquals(m: map<string, Dependency>, other: map<string, Dependency>) {
    |m| == |other|
    && forall k :: k in other ==> other[k].name in m && Dependencies.Equals(m[other[k].name], other[k])
  }

  /** The name → version specifier map the JSON form holds. */
  function Specifiers(m: map<string, Dependency>): map<string, string> {
    map n | n in m :: String(m[n].version)
  }

  /**
   * Builds one entry from a JSON key and version specifier:
   * `DependencyFromSpecifiers` with the repository and the range test fixed.
   */
  type Parser = (string, string) -> Result<Dependency>

  function FromSpecifiers(latest: string -> Result<Version>, isSemVerRange: string -> bool): Parser {
    (name, versionSpecifier) => DependencyFromSpecifiers(name, versionSpecifier, latest, isSemVerRange)
  }

  predicate AllParse(input: map<string, string>, parse: Parser) {
    forall n :: n in input ==> parse(n, input[n]).Ok?
  }

  /** The set `UnmarshalJSON` builds from a JSON map whose entries are all valid. */
  function Parsed(input: map<string, string>, parse: Parser): map<string, Dependency>
    requires AllParse(input, parse)
  {
    map n | n in input :: parse(n, input[n]).value
  }

  /**
   * `deps` lists the entries of `m` one key at a time, in some key order:
   * what iterating the map yields. An entry stored under two keys is
   * listed twice.
   */
  ghost predicate ListsEntries(deps: seq<Dependency>, m: map<string, Dependency>) {
    multiset(deps) == Entries(m)
  }

  class DependencySet {
    var entries: map<string, Dependency>

    /** `NewDependencySet` */
    constructor()
      ensures entries == map[]
    {
      entries := map[];
    }

    /** `AddDependency`: stores `d` under its name, replacing any entry of that name. */
    method AddDependency(d: Dependency)
      modifies this
      ensures entries == old(entries)[d.name := d]
    {
      entries := entries[d.name := d];
    }

    /** `Len` */
    function Len(): (n: nat)
      reads this
      ensures n == |entries.Keys|
    {
      |entries|
    }

    /** `AsMap` */
    function AsMap(): (m: map<string, Dependency>)
      reads this
      ensures m.Keys == entries.Keys && forall n :: n in m ==> m[n] == entries[n]
    {
      entries
    }

    /** `Equals`: compares sizes, then looks every entry of `other` up by its name. */
    method Equals(other: DependencySet) returns (r: bool)
      ensures r <==> SetEquals(entries, other.entries)
    {
      if Len() != other.Len() {
        return false;
      }
      var keys := other.entries.Keys;
      while keys != {}
        invariant keys <= other.entries.Keys
        invariant forall k :: k in other.entries && k !in keys ==>
                    other.entries[k].name in entries && Dependencies.Equals(entries[other.entries[k].name], other.entries[k])
        decreases keys
      {
        var k :| k in keys;
        var otherDep := other.entries[k];
        if otherDep.name !in entries || !Dependencies.Equals(entries[otherDep.name], otherDep) {
          return false;
        }
        keys := keys - {k};
      }
      return true;
    }

    /** `AsArray`: one slot per key, filled in map order. */
    method AsArray() returns (deps: seq<Dependency>)
      ensures ListsEntries(deps, entries)
      ensures |deps| == |entries|
      ensures forall j :: 0 <= j < |deps| ==> deps[j] in entries.Values
      ensures forall k :: k in entries ==> entries[k] in deps
      ensures KeyedByName(entries) ==> DependencyArrays.DistinctNames(deps)
    {
      var arr := new Dependency[|entries|](_ => Dependency("", Version(Tag, "")));
      FillInMapOrder(arr, entries);
      deps := arr[..];
      ListingMembers(deps, entries);
      if KeyedByName(entries) {
        KeyedListingDistinct(deps, entries);
      }
    }

    /** `MarshalJSON`: each entry's name mapped to its version specifier. */
    method Marshal() returns (m: map<string, string>)
      ensures forall k :: k in entries ==> entries[k].name in m
      ensures forall n :: n in m ==> exists k :: k in entries && entries[k].name == n && m[n] == String(entries[k].version)
      ensures KeyedByName(entries) ==> m == Specifiers(entries)
    {
      m := map[];
      var keys := entries.Keys;
      while keys != {}
        invariant keys <= entries.Keys
        invariant forall k :: k in entries && k !in keys ==> entries[k].name in m
        invariant forall n :: n in m ==> exists k :: k in entries && k !in keys && entries[k].name == n
                                                    && m[n] == String(entries[k].version)
        invariant KeyedByName(entries) ==> forall n :: n in m ==> n in entries && n !in keys && m[n] == String(entries[n].version)
        decreases keys
      {
        var k :| k in keys;
        var dep := entries[k];
        m := m[dep.name := String(dep.version)];
        keys := keys - {k};
      }
    }

    /**
     * `UnmarshalJSON`: starts from an empty set and stores each entry under
     * its JSON key, stopping at the first entry that does not parse.
     */
    method Unmarshal(input: map<string, string>, parse: Parser)
      returns (err: Option<string>)
      modifies this
      ensures err.None? <==> AllParse(input, parse)
      ensures err.None? ==> entries == Parsed(input, parse)
      ensures err.Some? ==> exists n :: n in input && parse(n, input[n]) == Err(err.value)
      ensures forall n :: n in entries ==> n in input && parse(n, input[n]) == Ok(entries[n])
    {
      entries := map[];
      var keys := input.Keys;
      while keys != {}
        invariant keys <= input.Keys
        invariant entries.Keys == input.Keys - keys
        invariant forall n :: n in entries ==> parse(n, input[n]) == Ok(entries[n])
        decreases keys
      {
        var name :| name in keys;
        var dep := parse(name, input[name]);
        if dep.Err? {
          return Some(dep.error);
        }
        entries := entries[name := dep.value];
        keys := keys - {name};
      }
      return None;
    }
  }

  // ---- properties of the map operations ----

  /** A listing has one slot per key, holds only entries, and holds every entry. */
  lemma ListingMembers(deps: seq<Dependency>, m: map<string, Dependency>)
    requires ListsEntries(deps, m)
    ensures |deps| == |m|
    ensures forall j :: 0 <= j < |deps| ==> deps[j] in m.Values
    ensures forall k :: k in m ==> m[k] in deps
  {
    EntriesMembers(m);
    assert |deps| == |multiset(deps)|;
    forall j | 0 <= j < |deps| ensures deps[j] in m.Values {
      assert deps[j] in multiset(deps);
    }
    forall k | k in m ensures m[k] in deps {
      assert m[k] in m.Values;
      assert m[k] in multiset(deps);
    }
  }

  /** A listing holds each entry as many times as there are keys holding it. */
  lemma ListingCount(deps: seq<Dependency>, m: map<string, Dependency>, d: Dependency)
    requires ListsEntries(deps, m)
    ensures multiset(deps)[d] == |KeysHolding(m, d)|
  {
    EntriesCount(m, d);
  }

  /** A listing of a set keyed by name lists no name twice. */
  lemma KeyedListingDistinct(deps: seq<Dependency>, m: map<string, Dependency>)
    requires ListsEntries(deps, m) && KeyedByName(m)
    ensures DependencyArrays.DistinctNames(deps)
  {
    ListingMembers(deps, m);
    forall a, b | 0 <= a < b < |deps| ensures deps[a].name != deps[b].name {
      if deps[a].name == deps[b].name {
        var d := deps[a];
        var k :| k in m && m[k] == d;
        assert d == deps[b];
        ListingCount(deps, m, d);
        assert KeysHolding(m, d) == {d.name};
        TwiceCounted(deps, a, b);
        assert false;
      }
    }
  }

  lemma TwiceCounted(deps: seq<Dependency>, a: nat, b: nat)
    requires a < b < |deps| && deps[a] == deps[b]
    ensures multiset(deps)[deps[a]] >= 2
  {
    assert deps == deps[..b] + deps[b..];
    assert deps[a] in deps[..b] && deps[b] == deps[b..][0];
  }

  /** Adding keeps every entry under its own name. */
  lemma AddKeepsKeyedByName(m: map<string, Dependency>, d: Dependency)
    requires KeyedByName(m)
    ensures KeyedByName(m[d.name := d])
  {
  }

  /** Adding a new name grows the set by one; adding a present name keeps its size. */
  lemma AddLen(m: map<string, Dependency>, d: Dependency)
    ensures |m[d.name := d]| == if d.name in m then |m| else |m| + 1
  {
    if d.name in m {
      assert m[d.name := d].Keys == m.Keys;
    } else {
      assert m[d.name := d].Keys == m.Keys + {d.name};
    }
  }

  /** Adding the same dependency twice is adding it once; other names are unaffected. */
  lemma AddIdempotent(m: map<string, Dependency>, d: Dependency, n: string)
    ensures m[d.name := d][d.name := d] == m[d.name := d]
    ensures n != d.name ==> (n in m[d.name := d] <==> n in m) && (n in m ==> m[d.name := d][n] == m[n])
  {
  }

  lemma SubsetSameSize(a: set<string>, b: set<string>)
    requires a <= b && |a| == |b|
    ensures a == b
  {
    assert |b - a| == |b| - |a|;
  }

  /** For sets keyed by name, `Equals` is equality of their contents. */
  lemma SetEqualsIsEquality(m: map<string, Dependency>, other: map<string, Dependency>)
    requires KeyedByName(m) && KeyedByName(other)
    ensures SetEquals(m, other) <==> m == other
  {
    if SetEquals(m, other) {
      assert other.Keys <= m.Keys;
      assert |other.Keys| == |other| == |m| == |m.Keys|;
      SubsetSameSize(other.Keys, m.Keys);
    }
  }

  /** Marshalling a set keyed by name and unmarshalling the result gives the set back. */
  lemma MarshalRoundTrip(m: map<string, Dependency>, latest: string -> Result<Version>, isSemVerRange: string -> bool)
    requires KeyedByName(m)
    requires forall n :: n in m ==> Restorable(m[n], latest, isSemVerRange)
    ensures AllParse(Specifiers(m), FromSpecifiers(latest, isSemVerRange))
    ensures Parsed(Specifiers(m), FromSpecifiers(latest, isSemVerRange)) == m
  {
    var parse := FromSpecifiers(latest, isSemVerRange);
    forall n | n in m ensures parse(n, String(m[n].version)) == Ok(m[n]) {
      RestorableParses(m[n], latest, isSemVerRange);
    }
    SpecifiersParse(m, parse);
    ParsedBack(Specifiers(m), parse, m);
  }

  /** A restorable entry's name and rendered version parse back to it. */
  lemma RestorableParses(d: Dependency, latest: string -> Result<Version>, isSemVerRange: string -> bool)
    requires Restorable(d, latest, isSemVerRange)
    ensures FromSpecifiers(latest, isSemVerRange)(d.name, String(d.version)) == Ok(d)
  {
  }

  /** When every entry parses back from its name and version text, so does every specifier. */
  lemma SpecifiersParse(m: map<string, Dependency>, parse: Parser)
    requires KeyedByName(m)
    requires forall n :: n in m ==> parse(n, String(m[n].version)) == Ok(m[n])
    ensures Specifiers(m).Keys == m.Keys
    ensures forall n :: n in Specifiers(m) ==> parse(n, Specifiers(m)[n]) == Ok(m[n])
  {
  }

  /** A JSON map whose every entry parses to the entry of `m` under its key is parsed back to `m`. */
  lemma ParsedBack(input: map<string, string>, parse: Parser, m: map<string, Dependency>)
    requires input.Keys == m.Keys
    requires forall n :: n in input ==> parse(n, input[n]) == Ok(m[n])
    ensures AllParse(input, parse) && Parsed(input, parse) == m
  {
  }

  /**
   * Unmarshalling stores entries under their JSON keys, so a key written
   * with the "gh:" shorthand is not the name of its entry.
   */
  lemma UnmarshalKeepsShorthandKeys(input: map<string, string>, latest: string -> Result<Version>,
                                    isSemVerRange: string -> bool)
    requires AllParse(input, FromSpecifiers(latest, isSemVerRange))
    ensures KeyedByName(Parsed(input, FromSpecifiers(latest, isSemVerRange)))
        <==> forall n :: n in input ==> !HasPrefix(n, "gh:")
  {
    var p := Parsed(input, FromSpecifiers(latest, isSemVerRange));
    forall n | n in input ensures p[n].name == n <==> !HasPrefix(n, "gh:") {
      ParsedName(input, latest, isSemVerRange, n);
      ShorthandIsNotCanonical(n);
    }
  }

  /**
   * A JSON map that names one package twice, once with the "gh:" shorthand,
   * parses to a set holding the same entry under both keys, so every
   * listing of that set holds the entry twice.
   */
  lemma ShorthandListedTwice(rest: string, specifier: string, latest: string -> Result<Version>,
                             isSemVerRange: string -> bool, deps: seq<Dependency>)
    requires var input := map["gh:" + rest := specifier, "github.com/" + rest := specifier];
             AllParse(input, FromSpecifiers(latest, isSemVerRange))
             && ListsEntries(deps, Parsed(input, FromSpecifiers(latest, isSemVerRange)))
    ensures DependencyFromSpecifiers("github.com/" + rest, specifier, latest, isSemVerRange).Ok?
    ensures var d := DependencyFromSpecifiers("github.com/" + rest, specifier, latest, isSemVerRange).value;
            deps == [d, d]
  {
    var shorthand, canonical := "gh:" + rest, "github.com/" + rest;
    var input := map[shorthand := specifier, canonical := specifier];
    var parse := FromSpecifiers(latest, isSemVerRange);
    ShorthandParsesAlike(rest, specifier, latest, isSemVerRange);
    assert input.Keys == {shorthand, canonical};
    ParsedEntry(input, parse, shorthand);
    ParsedEntry(input, parse, canonical);
    ListedTwice(deps, Parsed(input, parse), shorthand, canonical);
  }

  /** A set holding one entry under exactly two keys is listed as that entry twice. */
  lemma ListedTwice(deps: seq<Dependency>, m: map<string, Dependency>, k1: string, k2: string)
    requires m.Keys == {k1, k2} && k1 != k2 && m[k1] == m[k2]
    requires ListsEntries(deps, m)
    ensures deps == [m[k1], m[k1]]
  {
    ListingMembers(deps, m);
    forall j | 0 <= j < |deps| ensures deps[j] == m[k1] {
      var k :| k in m && m[k] == deps[j];
    }
  }

  /** A name and its "gh:" shorthand are different keys that parse alike. */
  lemma ShorthandParsesAlike(rest: string, specifier: string, latest: string -> Result<Version>,
                             isSemVerRange: string -> bool)
    ensures "gh:" + rest != "github.com/" + rest
    ensures DependencyFromSpecifiers("gh:" + rest, specifier, latest, isSemVerRange)
            == DependencyFromSpecifiers("github.com/" + rest, specifier, latest, isSemVerRange)
  {
    var shorthand, canonical := "gh:" + rest, "github.com/" + rest;
    assert shorthand[1] != canonical[1];
    assert HasPrefix(shorthand, "gh:") && !HasPrefix(canonical, "gh:") by {
      assert shorthand[..3] == "gh:";
      assert canonical[1] == 'i';
    }
    assert shorthand[3..] == rest;
  }

  lemma ParsedEntry(input: map<string, string>, parse: Parser, n: string)
    requires AllParse(input, parse) && n in input
    ensures Parsed(input, parse)[n] == parse(n, input[n]).value
  {
  }

  lemma ParsedName(input: map<string, string>, latest: string -> Result<Version>, isSemVerRange: string -> bool,
                   n: string)
    requires AllParse(input, FromSpecifiers(latest, isSemVerRange)) && n in input
    ensures Parsed(input, FromSpecifiers(latest, isSemVerRange))[n].name == Canonicalize(n)
  {
  }
}
