/**
 * The `list` command's table: a header, an underline, then one row per
 * dependency of the manifest, the name column padded to the longest name.
 */
module ListCommand {
  import opened Strs
  import opened Versions
  import opened Dependencies
  import opened DependencySets
  import opened Tables
  import DependencyArrays
  import Listings

  /** The name column, in row order. */
  function Names(deps: seq<Dependency>): (names: seq<string>)
    ensures |names| == |deps| && forall i :: 0 <= i < |deps| ==> names[i] == deps[i].name
  {
    seq(|deps|, i requires 0 <= i < |deps| => deps[i].name)
  }

  /** The version column, in row order. */
  function VersionStrings(deps: seq<Dependency>): (versions: seq<string>)
    ensures |versions| == |deps| && forall i :: 0 <= i < |deps| ==> versions[i] == String(deps[i].version)
  {
    seq(|deps|, i requires 0 <= i < |deps| => String(deps[i].version))
  }

  /** Width of the name column: the longest name in the set. */
  ghost function NameWidth(m: map<string, Dependency>): nat {
    LongestOf(NameSet(m))
  }

  ghost function NameSet(m: map<string, Dependency>): set<string> {
    set k | k in m :: m[k].name
  }

  /** Width of the version column: the longest version text in the set. */
  ghost function VersionWidth(m: map<string, Dependency>): nat {
    LongestOf(VersionSet(m))
  }

  ghost function VersionSet(m: map<string, Dependency>): set<string> {
    set k | k in m :: String(m[k].version)
  }

  function Header(rightPad: Padder, nameWidth: nat): string {
    rightPad("Name", " ", nameWidth) + "\tVersion"
  }

  function Underline(rightPad: Padder, nameWidth: nat, versionWidth: nat): string {
    rightPad("", "-", nameWidth) + "\t" + rightPad("", "-", versionWidth)
  }

  function Row(rightPad: Padder, dep: Dependency, nameWidth: nat): string {
    rightPad(dep.name, " ", nameWidth) + "\t" + String(dep.version)
  }

  function Rows(rightPad: Padder, deps: seq<Dependency>, nameWidth: nat): (rows: seq<string>)
    ensures |rows| == |deps| && forall i :: 0 <= i < |deps| ==> rows[i] == Row(rightPad, deps[i], nameWidth)
  {
    seq(|deps|, i requires 0 <= i < |deps| => Row(rightPad, deps[i], nameWidth))
  }

  /** The lines of the table for rows `deps`, without their newlines. */
  function TableLines(rightPad: Padder, deps: seq<Dependency>, nameWidth: nat, versionWidth: nat): seq<string> {
    [Header(rightPad, nameWidth), Underline(rightPad, nameWidth, versionWidth)] + Rows(rightPad, deps, nameWidth)
  }

  /**
   * `GetDependenciesForDisplay`. The source asks the set for its entries
   * three times (for each width, then for the rows); each answer may come
   * in a different map order, so the widths are those of the whole set and
   * `rows` is the order of the last answer.
   */
  method GetDependenciesForDisplay(rightPad: Padder, deps: DependencySet) returns (output: string, ghost rows: seq<Dependency>)
    ensures ListsEntries(rows, deps.entries)
    ensures output == Lines(TableLines(rightPad, rows, NameWidth(deps.entries), VersionWidth(deps.entries)))
  {
    var forNames := deps.AsArray();
    var lengthOfLongestName := LongestName(forNames);
    WidthOfListing(forNames, deps.entries);

    var forVersions := deps.AsArray();
    var lengthOfLongestVersion := LongestVersion(forVersions);
    WidthOfListing(forVersions, deps.entries);

    output := "";
    output := output + rightPad("Name", " ", lengthOfLongestName) + "\tVersion\n";
    output := output + rightPad("", "-", lengthOfLongestName) + "\t";
    output := output + rightPad("", "-", lengthOfLongestVersion) + "\n";
    HeadLines(rightPad, lengthOfLongestName, lengthOfLongestVersion);
    var forRows := deps.AsArray();
    output := AppendRows(rightPad, output, forRows, lengthOfLongestName, lengthOfLongestVersion);
    rows := forRows;
  }

  /** The first width loop: the longest name. */
  method LongestName(deps: seq<Dependency>) returns (lengthOfLongestName: nat)
    ensures lengthOfLongestName == Longest(Names(deps))
  {
    lengthOfLongestName := 0;
    for i := 0 to |deps|
      invariant lengthOfLongestName == Longest(Names(deps[..i]))
    {
      assert Names(deps[..i + 1])[..i] == Names(deps[..i]);
      if |deps[i].name| > lengthOfLongestName {
        lengthOfLongestName := |deps[i].name|;
      }
    }
    assert deps[..|deps|] == deps;
  }

  /** The second width loop: the longest version text. */
  method LongestVersion(deps: seq<Dependency>) returns (lengthOfLongestVersion: nat)
    ensures lengthOfLongestVersion == Longest(VersionStrings(deps))
  {
    lengthOfLongestVersion := 0;
    for i := 0 to |deps|
      invariant lengthOfLongestVersion == Longest(VersionStrings(deps[..i]))
    {
      assert VersionStrings(deps[..i + 1])[..i] == VersionStrings(deps[..i]);
      if |String(deps[i].version)| > lengthOfLongestVersion {
        lengthOfLongestVersion := |String(deps[i].version)|;
      }
    }
    assert deps[..|deps|] == deps;
  }

  /** The row loop: one line per dependency, after the header and the underline. */
  method AppendRows(rightPad: Padder, output: string, deps: seq<Dependency>, nameWidth: nat, versionWidth: nat) returns (r: string)
    requires output == Lines([Header(rightPad, nameWidth), Underline(rightPad, nameWidth, versionWidth)])
    ensures r == Lines(TableLines(rightPad, deps, nameWidth, versionWidth))
  {
    r := output;
    for i := 0 to |deps|
      invariant r == Lines(TableLines(rightPad, deps[..i], nameWidth, versionWidth))
    {
      var line := rightPad(deps[i].name, " ", nameWidth) + "\t" + String(deps[i].version);
      TableLinesAppend(rightPad, deps, i, nameWidth, versionWidth);
      LinesAppend(TableLines(rightPad, deps[..i], nameWidth, versionWidth), line);
      r := r + line + "\n";
    }
    assert deps[..|deps|] == deps;
  }

  /** The header and underline as the source writes them. */
  lemma HeadLines(rightPad: Padder, nameWidth: nat, versionWidth: nat)
    ensures "" + rightPad("Name", " ", nameWidth) + "\tVersion\n"
               + rightPad("", "-", nameWidth) + "\t" + rightPad("", "-", versionWidth) + "\n"
            == Lines([Header(rightPad, nameWidth), Underline(rightPad, nameWidth, versionWidth)])
  {
    TwoLines(rightPad("Name", " ", nameWidth), rightPad("", "-", nameWidth), rightPad("", "-", versionWidth));
  }

  lemma TwoLines(name: string, dashes: string, versionDashes: string)
    ensures "" + name + "\tVersion\n" + dashes + "\t" + versionDashes + "\n"
            == Lines([name + "\tVersion", dashes + "\t" + versionDashes])
  {
    var h, u := name + "\tVersion", dashes + "\t" + versionDashes;
    assert [h, u][1..] == [u];
    assert [u][1..] == [];
    assert Lines([u]) == u + "\n" + Lines([]);
    assert Lines([h, u]) == h + "\n" + Lines([u]);
  }

  lemma TableLinesAppend(rightPad: Padder, deps: seq<Dependency>, i: nat, nameWidth: nat, versionWidth: nat)
    requires i < |deps|
    ensures TableLines(rightPad, deps[..i + 1], nameWidth, versionWidth)
         == TableLines(rightPad, deps[..i], nameWidth, versionWidth) + [Row(rightPad, deps[i], nameWidth)]
  {
    var head := [Header(rightPad, nameWidth), Underline(rightPad, nameWidth, versionWidth)];
    var rows, row := Rows(rightPad, deps[..i], nameWidth), Row(rightPad, deps[i], nameWidth);
    RowsAppend(rightPad, deps, i, nameWidth);
    assert head + (rows + [row]) == (head + rows) + [row];
  }

  lemma RowsAppend(rightPad: Padder, deps: seq<Dependency>, i: nat, nameWidth: nat)
    requires i < |deps|
    ensures Rows(rightPad, deps[..i + 1], nameWidth) == Rows(rightPad, deps[..i], nameWidth) + [Row(rightPad, deps[i], nameWidth)]
  {
    var longer := Rows(rightPad, deps[..i + 1], nameWidth);
    var shorter := Rows(rightPad, deps[..i], nameWidth) + [Row(rightPad, deps[i], nameWidth)];
    forall k | 0 <= k < |longer| ensures longer[k] == shorter[k] {
      if k < i {
        assert deps[..i + 1][k] == deps[..i][k];
      }
    }
  }

  /** A listing of the set has the set's column widths, whatever its order. */
  lemma WidthOfListing(deps: seq<Dependency>, m: map<string, Dependency>)
    requires ListsEntries(deps, m)
    ensures Longest(Names(deps)) == NameWidth(m)
    ensures Longest(VersionStrings(deps)) == VersionWidth(m)
  {
    NamesOfListing(deps, m);
    LongestInAnyOrder(Names(deps), NameSet(m));
    VersionsOfListing(deps, m);
    LongestInAnyOrder(VersionStrings(deps), VersionSet(m));
  }

  /** The name column of a listing holds exactly the set's names. */
  lemma NamesOfListing(deps: seq<Dependency>, m: map<string, Dependency>)
    requires ListsEntries(deps, m)
    ensures forall i :: 0 <= i < |deps| ==> Names(deps)[i] in NameSet(m)
    ensures forall c :: c in NameSet(m) ==> c in Names(deps)
  {
    ListingMembers(deps, m);
    var names := Names(deps);
    forall i | 0 <= i < |deps| ensures names[i] in NameSet(m) {
      var k := EntryKey(deps[i], m);
      assert m[k].name in NameSet(m);
    }
    forall c | c in NameSet(m) ensures c in names {
      var k :| k in m && m[k].name == c;
      var j := EntryIndex(deps, m, k);
      assert names[j] == c;
    }
  }

  /** The version column of a listing holds exactly the set's version texts. */
  lemma VersionsOfListing(deps: seq<Dependency>, m: map<string, Dependency>)
    requires ListsEntries(deps, m)
    ensures forall i :: 0 <= i < |deps| ==> VersionStrings(deps)[i] in VersionSet(m)
    ensures forall c :: c in VersionSet(m) ==> c in VersionStrings(deps)
  {
    ListingMembers(deps, m);
    var versions := VersionStrings(deps);
    forall i | 0 <= i < |deps| ensures versions[i] in VersionSet(m) {
      var k := EntryKey(deps[i], m);
      assert String(m[k].version) in VersionSet(m);
    }
    forall c | c in VersionSet(m) ensures c in versions {
      var k :| k in m && String(m[k].version) == c;
      var j := EntryIndex(deps, m, k);
      assert versions[j] == c;
    }
  }

  lemma EntryKey(d: Dependency, m: map<string, Dependency>) returns (k: string)
    requires d in m.Values
    ensures k in m && m[k] == d
  {
    k :| k in m && m[k] == d;
  }

  lemma EntryIndex(deps: seq<Dependency>, m: map<string, Dependency>, k: string) returns (j: nat)
    requires ListsEntries(deps, m) && k in m
    ensures j < |deps| && deps[j] == m[k]
  {
    ListingMembers(deps, m);
    j :| 0 <= j < |deps| && deps[j] == m[k];
  }

  // ---- what the table looks like ----

  /**
   * When no name or version text holds a newline, the output has exactly
   * 2 + (number of dependencies) lines: header, underline, rows.
   */
  lemma LineCount(rightPad: Padder, deps: seq<Dependency>, nameWidth: nat, versionWidth: nat)
    requires PadsRight(rightPad)
    requires forall i :: 0 <= i < |deps| ==> '\n' !in deps[i].name && '\n' !in String(deps[i].version)
    ensures var lines := Split(Lines(TableLines(rightPad, deps, nameWidth, versionWidth)), "\n");
            |lines| == 2 + |deps| + 1 && lines[|lines| - 1] == ""
            && lines[..2 + |deps|] == TableLines(rightPad, deps, nameWidth, versionWidth)
  {
    var tl := TableLines(rightPad, deps, nameWidth, versionWidth);
    NoNewlineInLines(rightPad, deps, nameWidth, versionWidth);
    LinesSplit(tl);
    assert (tl + [""])[..|tl|] == tl;
  }

  lemma NoNewlineInLines(rightPad: Padder, deps: seq<Dependency>, nameWidth: nat, versionWidth: nat)
    requires PadsRight(rightPad)
    requires forall i :: 0 <= i < |deps| ==> '\n' !in deps[i].name && '\n' !in String(deps[i].version)
    ensures var tl := TableLines(rightPad, deps, nameWidth, versionWidth);
            forall i :: 0 <= i < |tl| ==> '\n' !in tl[i]
  {
    var rows := Rows(rightPad, deps, nameWidth);
    NoNewlineInHeader(rightPad, nameWidth);
    NoNewlineInUnderline(rightPad, nameWidth, versionWidth);
    forall i | 0 <= i < |rows| ensures '\n' !in rows[i] {
      NoNewlineInRow(rightPad, deps[i], nameWidth);
    }
    NoNewlineInTable(Header(rightPad, nameWidth), Underline(rightPad, nameWidth, versionWidth), rows);
  }

  lemma NoNewlineInHeader(rightPad: Padder, nameWidth: nat)
    requires PadsRight(rightPad)
    ensures '\n' !in Header(rightPad, nameWidth)
  {
    Pads(rightPad, "Name", ' ', nameWidth);
    NoNewlineInPadding("Name", ' ', nameWidth);
    NoNewlineInEither(rightPad("Name", " ", nameWidth), "\tVersion");
  }

  lemma NoNewlineInUnderline(rightPad: Padder, nameWidth: nat, versionWidth: nat)
    requires PadsRight(rightPad)
    ensures '\n' !in Underline(rightPad, nameWidth, versionWidth)
  {
    Pads(rightPad, "", '-', nameWidth);
    NoNewlineInPadding("", '-', nameWidth);
    Pads(rightPad, "", '-', versionWidth);
    NoNewlineInPadding("", '-', versionWidth);
    NoNewlineInEither(rightPad("", "-", nameWidth), "\t");
    NoNewlineInEither(rightPad("", "-", nameWidth) + "\t", rightPad("", "-", versionWidth));
  }

  lemma NoNewlineInRow(rightPad: Padder, dep: Dependency, nameWidth: nat)
    requires PadsRight(rightPad)
    requires '\n' !in dep.name && '\n' !in String(dep.version)
    ensures '\n' !in Row(rightPad, dep, nameWidth)
  {
    Pads(rightPad, dep.name, ' ', nameWidth);
    NoNewlineInPadding(dep.name, ' ', nameWidth);
  }

  /**
   * The columns line up: with the set's widths, every row and the
   * underline have their tab right after `NameWidth` characters, the name
   * (then spaces) before it and the version text after it; the underline
   * is dashes on both sides. The header's tab comes after
   * max(4, NameWidth) characters, since "Name" is never shortened.
   */
  lemma ColumnsAligned(rightPad: Padder, rows: seq<Dependency>, m: map<string, Dependency>)
    requires PadsRight(rightPad) && ListsEntries(rows, m)
    ensures var w := NameWidth(m);
            var vw := VersionWidth(m);
            && Underline(rightPad, w, vw) == Repeat('-', w) + "\t" + Repeat('-', vw)
            && HeaderTabbed(rightPad, w)
            && forall i :: 0 <= i < |rows| ==> RowAligned(rightPad, rows[i], w)
  {
    var w := NameWidth(m);
    var vw := VersionWidth(m);
    WidthOfListing(rows, m);
    Dashes(rightPad, w);
    Dashes(rightPad, vw);
    HeaderTab(rightPad, w);
    forall i | 0 <= i < |rows| ensures RowAligned(rightPad, rows[i], w) {
      assert |Names(rows)[i]| <= w;
      RowLayout(rightPad, rows[i], w);
    }
  }

  /** The header's tab comes after max(4, `w`) characters. */
  predicate HeaderTabbed(rightPad: Padder, w: nat) {
    var header := Header(rightPad, w);
    var column := if w < 4 then 4 else w;
    |header| > column && header[column] == '\t'
  }

  /** The row's name, then spaces up to `w`, a tab at column `w`, then the version text. */
  predicate RowAligned(rightPad: Padder, dep: Dependency, w: nat) {
    var row := Row(rightPad, dep, w);
    |row| > w && row[w] == '\t' && row[w + 1..] == String(dep.version)
    && |dep.name| <= w && row[..|dep.name|] == dep.name
    && forall j :: |dep.name| <= j < w ==> row[j] == ' '
  }

  lemma RowLayout(rightPad: Padder, dep: Dependency, w: nat)
    requires PadsRight(rightPad) && |dep.name| <= w
    ensures RowAligned(rightPad, dep, w)
  {
    Pads(rightPad, dep.name, ' ', w);
    var padded := rightPad(dep.name, " ", w);
    CellThenTab(padded, String(dep.version));
    assert padded[..|dep.name|] == dep.name;
  }

  lemma CellThenTab(cell: string, rest: string)
    ensures var row := cell + "\t" + rest;
            row[|cell|] == '\t' && row[|cell| + 1..] == rest && row[..|cell|] == cell
  {
    var row := cell + "\t" + rest;
    assert row == cell + ("\t" + rest);
  }

  lemma Dashes(rightPad: Padder, n: nat)
    requires PadsRight(rightPad)
    ensures rightPad("", "-", n) == Repeat('-', n)
  {
    Pads(rightPad, "", '-', n);
  }

  lemma HeaderTab(rightPad: Padder, w: nat)
    requires PadsRight(rightPad)
    ensures HeaderTabbed(rightPad, w)
  {
    Pads(rightPad, "Name", ' ', w);
    CellThenTab(rightPad("Name", " ", w), "Version");
  }

  // ---- row order ----

  /**
   * The rows come in the set's map order, which Go varies from run to run:
   * two listings of the same two-entry set give two different tables, so
   * the fixed order expected in src/cmd/list_test.go:11-23 is not promised.
   */
  lemma OutputDependsOnMapOrder(rightPad: Padder)
    requires PadsRight(rightPad)
    ensures var m := map[ListedFirst.name := ListedFirst, ListedSecond.name := ListedSecond];
            && ListsEntries([ListedFirst, ListedSecond], m) && ListsEntries([ListedSecond, ListedFirst], m)
            && Lines(TableLines(rightPad, [ListedFirst, ListedSecond], NameWidth(m), VersionWidth(m)))
               != Lines(TableLines(rightPad, [ListedSecond, ListedFirst], NameWidth(m), VersionWidth(m)))
  {
    var m := map[ListedFirst.name := ListedFirst, ListedSecond.name := ListedSecond];
    ListedPairFacts();
    TwoOrders(rightPad, ListedFirst, ListedSecond, NameWidth(m), VersionWidth(m));
  }

  /** The two dependencies of src/cmd/list_test.go:12-14. */
  const ListedFirst: Dependency := Dependency("github.com/a/a", Version(SemVerExact, "1.0.0"))
  const ListedSecond: Dependency := Dependency("github.com/abc/abc", Version(Branch, "main"))

  lemma ListedPairFacts()
    ensures 12 < |ListedFirst.name| && 12 < |ListedSecond.name| && ListedFirst.name[12] != ListedSecond.name[12]
    ensures '\n' !in ListedFirst.name && '\n' !in String(ListedFirst.version)
    ensures '\n' !in ListedSecond.name && '\n' !in String(ListedSecond.version)
  {
    FirstNameText();
    SecondNameText();
    FirstVersionText();
    SecondVersionText();
  }

  lemma FirstNameText()
    ensures |ListedFirst.name| == 14 && ListedFirst.name[12] == '/' && '\n' !in ListedFirst.name
  {
  }

  lemma SecondNameText()
    ensures |ListedSecond.name| == 18 && ListedSecond.name[12] == 'b' && '\n' !in ListedSecond.name
  {
  }

  lemma FirstVersionText()
    ensures '\n' !in String(ListedFirst.version)
  {
    assert String(ListedFirst.version) == "1.0.0";
  }

  lemma SecondVersionText()
    ensures '\n' !in String(ListedSecond.version)
  {
    SecondIsBranch();
    NoNewlineInEither("branch:", "main");
  }

  lemma SecondIsBranch()
    ensures String(ListedSecond.version) == "branch:" + "main"
  {
    GitRefStrings("main");
  }

  lemma NoNewlineInEither(a: string, b: string)
    requires '\n' !in a && '\n' !in b
    ensures '\n' !in a + b
  {
  }

  /** Two entries with different names, listed either way round, give different tables. */
  lemma TwoOrders(rightPad: Padder, a: Dependency, b: Dependency, w: nat, vw: nat)
    requires PadsRight(rightPad)
    requires 12 < |a.name| && 12 < |b.name| && a.name[12] != b.name[12]
    requires '\n' !in a.name && '\n' !in String(a.version) && '\n' !in b.name && '\n' !in String(b.version)
    ensures var m := map[a.name := a, b.name := b];
            && ListsEntries([a, b], m) && ListsEntries([b, a], m)
            && Lines(TableLines(rightPad, [a, b], w, vw)) != Lines(TableLines(rightPad, [b, a], w, vw))
  {
    assert a.name != b.name;
    PairListed(a, b);
    ShowsName(rightPad, a, w, 12);
    ShowsName(rightPad, b, w, 12);
    DistinctTables(rightPad, [a, b], [b, a], w, vw);
  }

  /** Two entries with different names are listed by either order of the two. */
  lemma PairListed(a: Dependency, b: Dependency)
    requires a.name != b.name
    ensures var m := map[a.name := a, b.name := b];
            ListsEntries([a, b], m) && ListsEntries([b, a], m)
  {
    var empty: map<string, Dependency> := map[];
    assert Listings.Entries(empty) == multiset{};
    Listings.EntriesAdd(empty, a.name, a);
    Listings.EntriesAdd(empty[a.name := a], b.name, b);
    assert empty[a.name := a][b.name := b] == map[a.name := a, b.name := b];
    assert multiset([a, b]) == multiset{a, b} == multiset([b, a]);
  }

  /** A row starts with the dependency's name. */
  lemma ShowsName(rightPad: Padder, dep: Dependency, w: nat, k: nat)
    requires PadsRight(rightPad) && k < |dep.name|
    ensures Row(rightPad, dep, w)[k] == dep.name[k]
  {
    Pads(rightPad, dep.name, ' ', w);
    var padded := rightPad(dep.name, " ", w);
    assert Row(rightPad, dep, w) == padded + ("\t" + String(dep.version));
    assert padded[..|dep.name|] == dep.name;
  }

  /** Tables whose first rows differ are different texts. */
  lemma DistinctTables(rightPad: Padder, x: seq<Dependency>, y: seq<Dependency>, w: nat, vw: nat)
    requires PadsRight(rightPad)
    requires |x| > 0 && |y| > 0 && Row(rightPad, x[0], w) != Row(rightPad, y[0], w)
    requires forall i :: 0 <= i < |x| ==> '\n' !in x[i].name && '\n' !in String(x[i].version)
    requires forall i :: 0 <= i < |y| ==> '\n' !in y[i].name && '\n' !in String(y[i].version)
    ensures Lines(TableLines(rightPad, x, w, vw)) != Lines(TableLines(rightPad, y, w, vw))
  {
    FirstRowLine(rightPad, x, w, vw);
    FirstRowLine(rightPad, y, w, vw);
  }

  /** The third line of a table is its first row. */
  lemma FirstRowLine(rightPad: Padder, x: seq<Dependency>, w: nat, vw: nat)
    requires PadsRight(rightPad) && |x| > 0
    requires forall i :: 0 <= i < |x| ==> '\n' !in x[i].name && '\n' !in String(x[i].version)
    ensures var lines := Split(Lines(TableLines(rightPad, x, w, vw)), "\n");
            |lines| > 2 && lines[2] == Row(rightPad, x[0], w)
  {
    LineCount(rightPad, x, w, vw);
    var lines := Split(Lines(TableLines(rightPad, x, w, vw)), "\n");
    assert lines[2] == TableLines(rightPad, x, w, vw)[2];
  }

  /** Rows in strictly increasing name order. */
  predicate StrictlyByName(s: seq<Dependency>) {
    forall i, j :: 0 <= i < j < |s| ==> Less(s[i].name, s[j].name)
  }

  /** Inserts `x` before the first row whose name does not come before `x`'s. */
  function InsertByName(x: Dependency, s: seq<Dependency>): (r: seq<Dependency>)
    ensures multiset(r) == multiset(s) + multiset{x}
  {
    if |s| == 0 then [x]
    else if Less(x.name, s[0].name) then [x] + s
    else
      assert s == [s[0]] + s[1..];
      [s[0]] + InsertByName(x, s[1..])
  }

  lemma {:induction false} InsertSorted(x: Dependency, s: seq<Dependency>)
    requires StrictlyByName(s)
    requires forall i :: 0 <= i < |s| ==> s[i].name != x.name
    ensures StrictlyByName(InsertByName(x, s))
  {
    if |s| > 0 && !Less(x.name, s[0].name) {
      LessTotal(x.name, s[0].name);
      var rest := InsertByName(x, s[1..]);
      InsertSorted(x, s[1..]);
      forall i | 0 <= i < |s[1..]| ensures Less(s[0].name, s[1..][i].name) {
        assert s[1..][i] == s[i + 1];
      }
      assert Less(s[0].name, x.name);
      AllAfter(s[0].name, x, s[1..]);
      ConsSorted(s[0], rest);
    } else if |s| > 0 {
      forall j | 0 < j < |s| ensures Less(x.name, s[j].name) {
        LessTransitive(x.name, s[0].name, s[j].name);
      }
    }
  }

  /** An entry whose name comes before every name of sorted rows, put in front of them. */
  lemma ConsSorted(first: Dependency, rest: seq<Dependency>)
    requires StrictlyByName(rest)
    requires forall i :: 0 <= i < |rest| ==> Less(first.name, rest[i].name)
    ensures StrictlyByName([first] + rest)
  {
    var r := [first] + rest;
    forall i, j | 0 <= i < j < |r| ensures Less(r[i].name, r[j].name) {
      assert r[j] == rest[j - 1];
      if i > 0 {
        assert r[i] == rest[i - 1];
      }
    }
  }

  /** Inserting an entry whose name comes after `lo` keeps every name after `lo`. */
  lemma AllAfter(lo: string, x: Dependency, s: seq<Dependency>)
    requires Less(lo, x.name) && forall i :: 0 <= i < |s| ==> Less(lo, s[i].name)
    ensures forall i :: 0 <= i < |InsertByName(x, s)| ==> Less(lo, InsertByName(x, s)[i].name)
  {
    var r := InsertByName(x, s);
    forall i | 0 <= i < |r| ensures Less(lo, r[i].name) {
      assert r[i] in multiset(s) + multiset{x};
      if r[i] != x {
        var k :| 0 <= k < |s| && s[k] == r[i];
      }
    }
  }

  /**
   * The sort the table needs so that its order stops depending on the map:
   * an insertion sort of the listing by name.
   */
  method SortByName(deps: seq<Dependency>) returns (sorted: seq<Dependency>)
    ensures multiset(sorted) == multiset(deps)
    ensures DependencyArrays.DistinctNames(deps) ==> StrictlyByName(sorted)
  {
    sorted := [];
    for i := 0 to |deps|
      invariant multiset(sorted) == multiset(deps[..i])
      invariant DependencyArrays.DistinctNames(deps) ==> StrictlyByName(sorted)
    {
      assert deps[..i + 1] == deps[..i] + [deps[i]];
      if DependencyArrays.DistinctNames(deps) {
        NameNotYetSorted(deps, i, sorted);
        InsertSorted(deps[i], sorted);
      }
      sorted := InsertByName(deps[i], sorted);
    }
    assert deps[..|deps|] == deps;
  }

  /** With distinct names, the next entry's name is not among those already sorted. */
  lemma NameNotYetSorted(deps: seq<Dependency>, i: nat, sorted: seq<Dependency>)
    requires DependencyArrays.DistinctNames(deps) && i < |deps|
    requires multiset(sorted) == multiset(deps[..i])
    ensures forall k :: 0 <= k < |sorted| ==> sorted[k].name != deps[i].name
  {
    forall k | 0 <= k < |sorted| ensures sorted[k].name != deps[i].name {
      assert sorted[k] in multiset(deps[..i]);
      var j :| 0 <= j < i && deps[j] == sorted[k];
    }
  }

  /**
   * `GetDependenciesForDisplay` with the rows sorted by name before they are
   * written: the table then depends on the set alone.
   */
  method GetSortedDependenciesForDisplay(rightPad: Padder, deps: DependencySet) returns (output: string, ghost rows: seq<Dependency>)
    ensures ListsEntries(rows, deps.entries)
    ensures KeyedByName(deps.entries) ==> StrictlyByName(rows)
    ensures output == Lines(TableLines(rightPad, rows, NameWidth(deps.entries), VersionWidth(deps.entries)))
  {
    var forNames := deps.AsArray();
    var lengthOfLongestName := LongestName(forNames);
    WidthOfListing(forNames, deps.entries);

    var forVersions := deps.AsArray();
    var lengthOfLongestVersion := LongestVersion(forVersions);
    WidthOfListing(forVersions, deps.entries);

    output := "";
    output := output + rightPad("Name", " ", lengthOfLongestName) + "\tVersion\n";
    output := output + rightPad("", "-", lengthOfLongestName) + "\t";
    output := output + rightPad("", "-", lengthOfLongestVersion) + "\n";
    HeadLines(rightPad, lengthOfLongestName, lengthOfLongestVersion);
    var forRows := deps.AsArray();
    var sorted := SortByName(forRows);
    output := AppendRows(rightPad, output, sorted, lengthOfLongestName, lengthOfLongestVersion);
    rows := sorted;
  }

  /**
   * There is one listing of a set in strictly increasing name order, so the
   * sorted table is the same on every run.
   */
  lemma {:induction false} SortedListingUnique(x: seq<Dependency>, y: seq<Dependency>)
    requires StrictlyByName(x) && StrictlyByName(y)
    requires forall d :: d in x <==> d in y
    ensures x == y
    decreases |x|
  {
    if |x| == 0 {
      if |y| > 0 {
        FirstIsMember(y);
      }
    } else {
      assert |y| > 0 by {
        assert x[0] in y;
      }
      if x[0] != y[0] {
        assert x[0] in y && y[0] in x;
        var i :| 0 <= i < |y| && y[i] == x[0];
        var j :| 0 <= j < |x| && x[j] == y[0];
        assert Less(y[0].name, x[0].name);
        assert Less(x[0].name, y[0].name);
        LessTransitive(x[0].name, y[0].name, x[0].name);
        LessIrreflexive(x[0].name);
        assert false;
      }
      forall d ensures d in x[1..] <==> d in y[1..] {
        if d in x[1..] {
          var k :| 0 <= k < |x[1..]| && x[1..][k] == d;
          assert Less(x[0].name, d.name);
          LessIrreflexive(d.name);
          assert d in y && d != y[0];
          var l :| 0 <= l < |y| && y[l] == d;
          assert d == y[1..][l - 1];
        }
        if d in y[1..] {
          var k :| 0 <= k < |y[1..]| && y[1..][k] == d;
          assert Less(y[0].name, d.name);
          LessIrreflexive(d.name);
          assert d in x && d != x[0];
          var l :| 0 <= l < |x| && x[l] == d;
          assert d == x[1..][l - 1];
        }
      }
      SortedListingUnique(x[1..], y[1..]);
      assert x == [x[0]] + x[1..] && y == [y[0]] + y[1..];
    }
  }

  lemma FirstIsMember(y: seq<Dependency>)
    requires |y| > 0
    ensures y[0] in y
  {
  }

  /** Two sorted tables of the same set are the same text. */
  lemma SortedTableIsDetermined(rightPad: Padder, x: seq<Dependency>, y: seq<Dependency>, m: map<string, Dependency>)
    requires ListsEntries(x, m) && ListsEntries(y, m)
    requires StrictlyByName(x) && StrictlyByName(y)
    ensures Lines(TableLines(rightPad, x, NameWidth(m), VersionWidth(m))) == Lines(TableLines(rightPad, y, NameWidth(m), VersionWidth(m)))
  {
    forall d ensures d in x <==> d in y {
      assert d in x <==> d in multiset(x);
      assert d in y <==> d in multiset(y);
    }
    SortedListingUnique(x, y);
  }
}
