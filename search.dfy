/**
 * The `search` command's results table: every repository found is listed
 * as "github.com/" + its full name beside its description, both columns
 * padded to their longest cell. The query to GitHub is not part of this
 * model; the table is built from the items of its response.
 */
module SearchCommand {
  import opened Strs
  import opened Tables

  /** The two fields of `SearchResponseItem` the table shows. */
  datatype SearchResponseItem = SearchResponseItem(fullName: string, description: string)

  const GhPrefix: string := "github.com/"

  function FullNames(items: seq<SearchResponseItem>): (names: seq<string>)
    ensures |names| == |items| && forall i :: 0 <= i < |items| ==> names[i] == items[i].fullName
  {
    seq(|items|, i requires 0 <= i < |items| => items[i].fullName)
  }

  function Descriptions(items: seq<SearchResponseItem>): (descriptions: seq<string>)
    ensures |descriptions| == |items| && forall i :: 0 <= i < |items| ==> descriptions[i] == items[i].description
  {
    seq(|items|, i requires 0 <= i < |items| => items[i].description)
  }

  function Row(rightPad: Padder, item: SearchResponseItem, nameWidth: nat, descriptionWidth: nat): string {
    rightPad(GhPrefix + item.fullName, " ", nameWidth) + "\t" + rightPad(item.description, " ", descriptionWidth)
  }

  function Rows(rightPad: Padder, items: seq<SearchResponseItem>, nameWidth: nat, descriptionWidth: nat): (rows: seq<string>)
    ensures |rows| == |items|
    ensures forall i :: 0 <= i < |items| ==> rows[i] == Row(rightPad, items[i], nameWidth, descriptionWidth)
  {
    seq(|items|, i requires 0 <= i < |items| => Row(rightPad, items[i], nameWidth, descriptionWidth))
  }

  /** Header, underline and one row per item, without their newlines. */
  function TableLines(rightPad: Padder, items: seq<SearchResponseItem>, nameWidth: nat, descriptionWidth: nat): seq<string> {
    [rightPad("Name", " ", nameWidth) + "\t" + rightPad("Description", " ", descriptionWidth),
     Repeat('-', nameWidth) + "\t" + Repeat('-', descriptionWidth)]
    + Rows(rightPad, items, nameWidth, descriptionWidth)
  }

  /** Width of the name column: the longest full name, plus the "github.com/" written before it. */
  function NameWidth(items: seq<SearchResponseItem>): nat {
    Longest(FullNames(items)) + |GhPrefix|
  }

  /** `GetSearchResultsTable` */
  method GetSearchResultsTable(rightPad: Padder, items: seq<SearchResponseItem>) returns (table: string)
    ensures table == Lines(TableLines(rightPad, items, NameWidth(items), Longest(Descriptions(items))))
  {
    var lengthOfLongestName, lengthOfLongestDescription := LongestCells(items);
    var maxNameLength := lengthOfLongestName + |GhPrefix|;
    assert maxNameLength == NameWidth(items);
    table := WriteHeader(rightPad, maxNameLength, lengthOfLongestDescription);
    table := WriteRows(rightPad, table, items, maxNameLength, lengthOfLongestDescription);
  }

  /** The header and the underline, the first two lines the builder writes. */
  method WriteHeader(rightPad: Padder, maxNameLength: nat, lengthOfLongestDescription: nat) returns (table: string)
    ensures table == Lines(TableLines(rightPad, [], maxNameLength, lengthOfLongestDescription))
  {
    var nameHeader := rightPad("Name", " ", maxNameLength);
    var descriptionHeader := rightPad("Description", " ", lengthOfLongestDescription);
    var nameUnderline := Repeat('-', maxNameLength);
    var descriptionUnderline := Repeat('-', lengthOfLongestDescription);

    var header := nameHeader + "\t" + descriptionHeader;
    var underline := nameUnderline + "\t" + descriptionUnderline;
    table := "";
    table := table + header + "\n";
    table := table + underline + "\n";
    HeadLines(header, underline);
    TableStart(rightPad, maxNameLength, lengthOfLongestDescription);
  }

  /** The width loop: the longest full name and the longest description. */
  method LongestCells(items: seq<SearchResponseItem>) returns (lengthOfLongestName: nat, lengthOfLongestDescription: nat)
    ensures lengthOfLongestName == Longest(FullNames(items))
    ensures lengthOfLongestDescription == Longest(Descriptions(items))
  {
    lengthOfLongestName := 0;
    lengthOfLongestDescription := 0;
    for i := 0 to |items|
      invariant lengthOfLongestName == Longest(FullNames(items[..i]))
      invariant lengthOfLongestDescription == Longest(Descriptions(items[..i]))
    {
      ColumnsAppend(items, i);
      LongestAppend(FullNames(items[..i]), items[i].fullName);
      LongestAppend(Descriptions(items[..i]), items[i].description);
      if |items[i].fullName| > lengthOfLongestName {
        lengthOfLongestName := |items[i].fullName|;
      }
      if |items[i].description| > lengthOfLongestDescription {
        lengthOfLongestDescription := |items[i].description|;
      }
    }
    assert items[..|items|] == items;
  }

  lemma ColumnsAppend(items: seq<SearchResponseItem>, i: nat)
    requires i < |items|
    ensures FullNames(items[..i + 1]) == FullNames(items[..i]) + [items[i].fullName]
    ensures Descriptions(items[..i + 1]) == Descriptions(items[..i]) + [items[i].description]
  {
  }

  /** The header and the underline, as the builder writes them first. */
  lemma TableStart(rightPad: Padder, w: nat, dw: nat)
    ensures TableLines(rightPad, [], w, dw)
            == [rightPad("Name", " ", w) + "\t" + rightPad("Description", " ", dw),
                Repeat('-', w) + "\t" + Repeat('-', dw)]
  {
    assert Rows(rightPad, [], w, dw) == [];
  }

  /** The row loop of the string builder. */
  method WriteRows(rightPad: Padder, table: string, items: seq<SearchResponseItem>, nameWidth: nat, descriptionWidth: nat)
    returns (r: string)
    requires table == Lines(TableLines(rightPad, [], nameWidth, descriptionWidth))
    ensures r == Lines(TableLines(rightPad, items, nameWidth, descriptionWidth))
  {
    r := table;
    for i := 0 to |items|
      invariant r == Lines(TableLines(rightPad, items[..i], nameWidth, descriptionWidth))
    {
      var line := rightPad(GhPrefix + items[i].fullName, " ", nameWidth) + "\t"
                  + rightPad(items[i].description, " ", descriptionWidth);
      TableLinesAppend(rightPad, items, i, nameWidth, descriptionWidth);
      LinesAppend(TableLines(rightPad, items[..i], nameWidth, descriptionWidth), line);
      r := r + line + "\n";
    }
    assert items[..|items|] == items;
  }

  lemma HeadLines(header: string, underline: string)
    ensures "" + header + "\n" + underline + "\n" == Lines([header, underline])
  {
    assert [header, underline][1..] == [underline];
    assert [underline][1..] == [];
    assert Lines([underline]) == underline + "\n" + Lines([]);
    assert Lines([header, underline]) == header + "\n" + Lines([underline]);
  }

  lemma TableLinesAppend(rightPad: Padder, items: seq<SearchResponseItem>, i: nat, nameWidth: nat, descriptionWidth: nat)
    requires i < |items|
    ensures TableLines(rightPad, items[..i + 1], nameWidth, descriptionWidth)
         == TableLines(rightPad, items[..i], nameWidth, descriptionWidth) + [Row(rightPad, items[i], nameWidth, descriptionWidth)]
  {
    assert Rows(rightPad, items[..i + 1], nameWidth, descriptionWidth)
        == Rows(rightPad, items[..i], nameWidth, descriptionWidth) + [Row(rightPad, items[i], nameWidth, descriptionWidth)];
  }

  // ---- what the table looks like ----

  /**
   * When no full name or description holds a newline, the table splits
   * back into exactly 2 + (number of items) lines, header and underline
   * first, then one row per item in the order GitHub returned them.
   */
  lemma LineCount(rightPad: Padder, items: seq<SearchResponseItem>, w: nat, dw: nat)
    requires PadsRight(rightPad)
    requires forall i :: 0 <= i < |items| ==> '\n' !in items[i].fullName && '\n' !in items[i].description
    ensures |TableLines(rightPad, items, w, dw)| == 2 + |items|
    ensures Split(Lines(TableLines(rightPad, items, w, dw)), "\n") == TableLines(rightPad, items, w, dw) + [""]
  {
    NoNewlineInLines(rightPad, items, w, dw);
    LinesSplit(TableLines(rightPad, items, w, dw));
  }

  lemma NoNewlineInLines(rightPad: Padder, items: seq<SearchResponseItem>, w: nat, dw: nat)
    requires PadsRight(rightPad)
    requires forall i :: 0 <= i < |items| ==> '\n' !in items[i].fullName && '\n' !in items[i].description
    ensures var tl := TableLines(rightPad, items, w, dw);
            forall i :: 0 <= i < |tl| ==> '\n' !in tl[i]
  {
    var rows := Rows(rightPad, items, w, dw);
    NoNewlineInHeader(rightPad, w, dw);
    NoNewlineInCells(rightPad, "", "", w, dw);
    forall i | 0 <= i < |rows| ensures '\n' !in rows[i] {
      NoNewlineInRow(rightPad, items[i], w, dw);
    }
    NoNewlineInTable(rightPad("Name", " ", w) + "\t" + rightPad("Description", " ", dw),
                     Repeat('-', w) + "\t" + Repeat('-', dw), rows);
  }

  lemma NoNewlineInHeader(rightPad: Padder, w: nat, dw: nat)
    requires PadsRight(rightPad)
    ensures '\n' !in rightPad("Name", " ", w) + "\t" + rightPad("Description", " ", dw)
  {
    NoNewlineInCells(rightPad, "Name", "Description", w, dw);
  }

  lemma NoNewlineInRow(rightPad: Padder, item: SearchResponseItem, w: nat, dw: nat)
    requires PadsRight(rightPad) && '\n' !in item.fullName && '\n' !in item.description
    ensures '\n' !in Row(rightPad, item, w, dw)
  {
    assert '\n' !in GhPrefix;
    NoNewlineInCells(rightPad, GhPrefix + item.fullName, item.description, w, dw);
  }

  lemma NoNewlineInCells(rightPad: Padder, left: string, right: string, w: nat, dw: nat)
    requires PadsRight(rightPad) && '\n' !in left && '\n' !in right
    ensures '\n' !in rightPad(left, " ", w) + "\t" + rightPad(right, " ", dw)
    ensures '\n' !in Repeat('-', w) + "\t" + Repeat('-', dw)
  {
    NoNewlineInPadded(rightPad, left, w);
    NoNewlineInPadded(rightPad, right, dw);
  }

  lemma NoNewlineInPadded(rightPad: Padder, s: string, w: nat)
    requires PadsRight(rightPad) && '\n' !in s
    ensures '\n' !in rightPad(s, " ", w)
  {
    Pads(rightPad, s, ' ', w);
    NoNewlineInPadding(s, ' ', w);
  }

  /**
   * The table is a grid: every row and the underline are exactly
   * NameWidth + 1 + (longest description) characters long, with the tab
   * at column NameWidth, "github.com/" + the full name then spaces before
   * it and the description then spaces after it.
   */
  lemma Grid(rightPad: Padder, items: seq<SearchResponseItem>)
    requires PadsRight(rightPad)
    ensures var w, dw := NameWidth(items), Longest(Descriptions(items));
            && |Repeat('-', w) + "\t" + Repeat('-', dw)| == w + 1 + dw
            && forall i :: 0 <= i < |items| ==> RowAligned(rightPad, items[i], w, dw)
  {
    var w, dw := NameWidth(items), Longest(Descriptions(items));
    forall i | 0 <= i < |items| ensures RowAligned(rightPad, items[i], w, dw) {
      assert |FullNames(items)[i]| <= Longest(FullNames(items));
      assert |Descriptions(items)[i]| <= dw;
      RowLayout(rightPad, items[i], w, dw);
    }
  }

  predicate RowAligned(rightPad: Padder, item: SearchResponseItem, w: nat, dw: nat) {
    var row := Row(rightPad, item, w, dw);
    var name := GhPrefix + item.fullName;
    |row| == w + 1 + dw && row[w] == '\t'
    && |name| <= w && |item.description| <= dw
    && row[..|name|] == name && (forall j :: |name| <= j < w ==> row[j] == ' ')
    && row[w + 1..w + 1 + |item.description|] == item.description
    && (forall j :: w + 1 + |item.description| <= j < |row| ==> row[j] == ' ')
  }

  lemma RowLayout(rightPad: Padder, item: SearchResponseItem, w: nat, dw: nat)
    requires PadsRight(rightPad)
    requires |GhPrefix + item.fullName| <= w && |item.description| <= dw
    ensures RowAligned(rightPad, item, w, dw)
  {
    Pads(rightPad, GhPrefix + item.fullName, ' ', w);
    Pads(rightPad, item.description, ' ', dw);
    var left := rightPad(GhPrefix + item.fullName, " ", w);
    var right := rightPad(item.description, " ", dw);
    var row := left + "\t" + right;
    assert row == left + ("\t" + right);
    assert row[..|GhPrefix + item.fullName|] == left[..|GhPrefix + item.fullName|];
    assert row[w + 1..] == right;
    assert right[..|item.description|] == item.description;
  }
}
