/**
 * What the `list` and `search` commands share to lay out a text table:
 * padding a cell to the column width, the width of a column (its longest
 * cell) and writing lines that each end in a newline.
 */
module Tables {
  import opened Strs

  /**
   * `utils.RightPad(s, pad, length)`, whose body is not part of this model:
   * the commands take it as a parameter.
   */
  type Padder = (string, string, int) -> string

  /**
   * The padding the commands' tests expect of `utils.RightPad` with a
   * one-character pad: `s` followed by as many pads as it takes to reach
   * `length`; text already that long is left as it is.
   */
  function PaddedRight(s: string, pad: char, length: int): (r: string)
    ensures |r| == if |s| < length then length else |s|
    ensures HasPrefix(r, s)
    ensures forall i :: |s| <= i < |r| ==> r[i] == pad
  {
    if |s| < length then s + Repeat(pad, length - |s|) else s
  }

  /** `rightPad` pads as the tests expect whenever the pad is one character. */
  ghost predicate PadsRight(rightPad: Padder) {
    forall s, c, n :: rightPad(s, [c], n) == PaddedRight(s, c, n)
  }

  lemma Pads(rightPad: Padder, s: string, c: char, n: int)
    requires PadsRight(rightPad)
    ensures rightPad(s, [c], n) == PaddedRight(s, c, n)
  {
  }

  /** Padding with a character other than a newline adds no newline. */
  lemma NoNewlineInPadding(s: string, pad: char, length: int)
    requires '\n' !in s && pad != '\n'
    ensures '\n' !in PaddedRight(s, pad, length)
  {
    var padded := PaddedRight(s, pad, length);
    forall i | 0 <= i < |padded| ensures padded[i] != '\n' {
      if i < |s| {
        assert padded[..|s|] == s;
        assert padded[i] == s[i];
      }
    }
  }

  /** The longest cell of a column, scanned front to back; 0 for no cells. */
  function Longest(cells: seq<string>): (w: nat)
    ensures forall i :: 0 <= i < |cells| ==> |cells[i]| <= w
    ensures |cells| == 0 ==> w == 0
    ensures |cells| > 0 ==> exists i :: 0 <= i < |cells| && |cells[i]| == w
  {
    if |cells| == 0 then 0
    else
      var init := cells[..|cells| - 1];
      var last := cells[|cells| - 1];
      assert forall i :: 0 <= i < |init| ==> init[i] == cells[i];
      var w := Longest(init);
      if |last| > w then |last| else w
  }

  /** A cell added at the end widens the column only when it is longer. */
  lemma LongestAppend(cells: seq<string>, c: string)
    ensures Longest(cells + [c]) == if |c| > Longest(cells) then |c| else Longest(cells)
  {
    assert (cells + [c])[..|cells|] == cells;
  }

  /** The longest of a set of cells: a column width that does not depend on row order. */
  ghost function LongestOf(cells: set<string>): (w: nat)
    ensures forall c :: c in cells ==> |c| <= w
    ensures cells == {} ==> w == 0
    ensures cells != {} ==> exists c :: c in cells && |c| == w
  {
    if cells == {} then 0
    else
      var c :| c in cells;
      var w := LongestOf(cells - {c});
      if |c| > w then |c| else w
  }

  /** The longest cell is the same in every order the cells are listed. */
  lemma LongestInAnyOrder(cells: seq<string>, s: set<string>)
    requires forall i :: 0 <= i < |cells| ==> cells[i] in s
    requires forall c :: c in s ==> c in cells
    ensures Longest(cells) == LongestOf(s)
  {
    if |cells| == 0 {
      assert s == {};
    } else {
      var i :| 0 <= i < |cells| && |cells[i]| == Longest(cells);
      var c :| c in s && |c| == LongestOf(s);
      assert c in cells;
    }
  }

  /** Each line followed by a newline, as the commands write them. */
  function Lines(lines: seq<string>): (text: string)
    ensures |lines| > 0 ==> HasPrefix(text, lines[0] + "\n")
  {
    if |lines| == 0 then ""
    else
      var text := lines[0] + "\n" + Lines(lines[1..]);
      assert text[..|lines[0] + "\n"|] == lines[0] + "\n";
      text
  }

  /** A header, an underline and rows, none holding a newline, make lines without newlines. */
  lemma NoNewlineInTable(header: string, underline: string, rows: seq<string>)
    requires '\n' !in header && '\n' !in underline
    requires forall i :: 0 <= i < |rows| ==> '\n' !in rows[i]
    ensures forall i :: 0 <= i < |[header, underline] + rows| ==> '\n' !in ([header, underline] + rows)[i]
  {
    var lines := [header, underline] + rows;
    forall i | 2 <= i < |lines| ensures '\n' !in lines[i] {
      assert lines[i] == rows[i - 2];
    }
  }

  /** Writing lines and splitting at the newlines gives the lines back, then the empty rest. */
  lemma {:induction false} LinesSplit(lines: seq<string>)
    requires forall i :: 0 <= i < |lines| ==> '\n' !in lines[i]
    ensures Split(Lines(lines), "\n") == lines + [""]
  {
    LinesJoin(lines);
    forall i | 0 <= i < |lines + [""]|
      ensures SeparatedCleanly((lines + [""])[i], "\n")
    {
      CharSeparatedCleanly((lines + [""])[i], '\n');
    }
    SplitJoin(lines + [""], "\n");
  }

  lemma {:induction false} LinesJoin(lines: seq<string>)
    ensures Lines(lines) == Join(lines + [""], "\n")
  {
    if |lines| > 0 {
      LinesJoin(lines[1..]);
      assert (lines + [""])[1..] == lines[1..] + [""];
      JoinCons(lines[0], lines[1..] + [""], "\n");
      assert lines + [""] == [lines[0]] + (lines[1..] + [""]);
    }
  }

  /** Appending a line to written lines writes it after them. */
  lemma {:induction false} LinesAppend(lines: seq<string>, line: string)
    ensures Lines(lines + [line]) == Lines(lines) + line + "\n"
  {
    if |lines| > 0 {
      assert (lines + [line])[1..] == lines[1..] + [line];
      LinesAppend(lines[1..], line);
    }
  }
}
