/** The literal cases of game/maze_test.go and the parse errors ParseMaze
    reports on small inputs, stated on the model. */
module Scenarios {
  import opened Grid
  import opened Text
  import opened Mazes

  lemma UnlinesPrefix(ls: seq<string>, k: int)
    requires 0 <= k < |ls|
    ensures Unlines(ls[..k + 1]) == Unlines(ls[..k]) + (ls[k] + "\n")
  {
    assert ls[..k + 1][..k] == ls[..k];
  }

  /** The text of seven lines, each followed by a newline. */
  lemma UnlinesSeven(ls: seq<string>)
    requires |ls| == 7
    ensures Unlines(ls) ==
            (ls[0] + "\n") + (ls[1] + "\n") + (ls[2] + "\n") + (ls[3] + "\n") +
            (ls[4] + "\n") + (ls[5] + "\n") + (ls[6] + "\n")
  {
    UnlinesPrefix(ls, 0);
    UnlinesPrefix(ls, 1);
    UnlinesPrefix(ls, 2);
    UnlinesPrefix(ls, 3);
    UnlinesPrefix(ls, 4);
    UnlinesPrefix(ls, 5);
    UnlinesPrefix(ls, 6);
    assert ls[..0] == [] && ls[..7] == ls;
    assert "" + (ls[0] + "\n") == ls[0] + "\n";
  }

  /** NewMaze(3, 3).String(): every wall drawn. */
  lemma EnclosedMazeString()
    ensures Encode(Full(3, 3)) ==
            "+--+--+--+\n" +
            "|  |  |  |\n" +
            "+--+--+--+\n" +
            "|  |  |  |\n" +
            "+--+--+--+\n" +
            "|  |  |  |\n" +
            "+--+--+--+\n"
  {
    var l := Full(3, 3);
    var border, content := "+--+--+--+", "|  |  |  |";
    EnclosedLines();
    UnlinesSeven(Lines(l));
    assert border + "\n" == "+--+--+--+\n";
    assert content + "\n" == "|  |  |  |\n";
  }

  lemma EnclosedLines()
    ensures Lines(Full(3, 3)) == ["+--+--+--+", "|  |  |  |", "+--+--+--+", "|  |  |  |", "+--+--+--+", "|  |  |  |", "+--+--+--+"]
  {
    assert TopRun(3) == "+--+--+--";
    assert TopBorder(3) == "+--+--+--+";
    EnclosedRowLines();
    assert Lines(Full(3, 3)) == [TopBorder(3)] + RowLines(Full(3, 3), 3);
  }

  lemma EnclosedRowLines()
    ensures RowLines(Full(3, 3), 3) == ["|  |  |  |", "+--+--+--+", "|  |  |  |", "+--+--+--+", "|  |  |  |", "+--+--+--+"]
  {
    var l := Full(3, 3);
    EnclosedRow(0);
    EnclosedRow(1);
    EnclosedRow(2);
    var border, content := "+--+--+--+", "|  |  |  |";
    assert RowLines(l, 1) == [content, border];
    assert RowLines(l, 2) == [content, border, content, border];
  }

  lemma EnclosedRow(y: int)
    requires 0 <= y < 3
    ensures ContentLine(Full(3, 3), y) == "|  |  |  |"
    ensures WallLine(Full(3, 3), y) == "+--+--+--+"
  {
    var l := Full(3, 3);
    assert EastChar(l, 0, y) == EastChar(l, 1, y) == EastChar(l, 2, y) == '|';
    assert SouthGlyph(l, 0, y) == SouthGlyph(l, 1, y) == SouthGlyph(l, 2, y) == "--";
    assert ContentCells(l, y, 1) == "  |";
    assert ContentCells(l, y, 2) == "  |  |";
    assert WallCells(l, y, 1) == "+--";
    assert WallCells(l, y, 2) == "+--+--";
  }

  /** The text of five lines, each followed by a newline. */
  lemma UnlinesFive(ls: seq<string>)
    requires |ls| == 5
    ensures Unlines(ls) ==
            (ls[0] + "\n") + (ls[1] + "\n") + (ls[2] + "\n") + (ls[3] + "\n") + (ls[4] + "\n")
  {
    UnlinesPrefix(ls, 0);
    UnlinesPrefix(ls, 1);
    UnlinesPrefix(ls, 2);
    UnlinesPrefix(ls, 3);
    UnlinesPrefix(ls, 4);
    assert ls[..0] == [] && ls[..5] == ls;
    assert "" + (ls[0] + "\n") == ls[0] + "\n";
  }

  /** The 2x2 maze of the second test once its four walls are removed:
      East of (0, 0), South of (0, 1), South of (1, 0), East of (1, 1). */
  const Opened: Layout := Layout(2, 2, [
    [Cell(true, false, true, true), Cell(true, true, false, false)],
    [Cell(true, true, false, true), Cell(false, false, true, true)]])

  /** The four removals give Opened; the two on the boundary clear one flag
      each, the two interior ones clear both sides of their edge. */
  lemma OpenedByRemovals()
    ensures Full(2, 2).SetWall(0, 0, East, false).SetWall(0, 1, South, false)
              .SetWall(1, 0, South, false).SetWall(1, 1, East, false) == Opened
  {
    var a := Full(2, 2).SetWall(0, 0, East, false);
    var b := a.SetWall(0, 1, South, false);
    var c := b.SetWall(1, 0, South, false);
    var r := c.SetWall(1, 1, East, false);
    SetWallEffect(Full(2, 2), 0, 0, East, false);
    SetWallEffect(a, 0, 1, South, false);
    SetWallEffect(b, 1, 0, South, false);
    SetWallEffect(c, 1, 1, East, false);
    forall x, y, d
      ensures r.HasWall(x, y, d) == Opened.HasWall(x, y, d)
    {
    }
    LayoutExtensionality(r, Opened);
  }

  lemma OpenedLines()
    ensures Lines(Opened) == ["+--+--+", "|     |", "+--+  +", "|  |   ", "+  +--+"]
  {
    var l := Opened;
    assert TopRun(2) == "+--+--";
    assert TopBorder(2) == "+--+--+";
    OpenedFirstRow();
    OpenedSecondRow();
    assert RowLines(l, 1) == ["|     |", "+--+  +"];
    assert RowLines(l, 2) == ["|     |", "+--+  +", "|  |   ", "+  +--+"];
  }

  lemma OpenedFirstRow()
    ensures ContentLine(Opened, 0) == "|     |" && WallLine(Opened, 0) == "+--+  +"
  {
    var l := Opened;
    assert ContentCells(l, 0, 1) == "   " && ContentCells(l, 0, 2) == "     |";
    assert WallCells(l, 0, 1) == "+--" && WallCells(l, 0, 2) == "+--+  ";
  }

  lemma OpenedSecondRow()
    ensures ContentLine(Opened, 1) == "|  |   " && WallLine(Opened, 1) == "+  +--+"
  {
    var l := Opened;
    assert ContentCells(l, 1, 1) == "  |" && ContentCells(l, 1, 2) == "  |   ";
    assert WallCells(l, 1, 1) == "+  " && WallCells(l, 1, 2) == "+  +--";
  }

  /** The second test of game/maze_test.go: NewMaze(2, 2), four RemoveWall
      calls, then String. */
  method RemovedWallsString() returns (s: string)
    ensures s == "+--+--+\n" +
                 "|     |\n" +
                 "+--+  +\n" +
                 "|  |   \n" +
                 "+  +--+\n"
  {
    var m := new Maze(2, 2);
    m.RemoveWall(0, 0, East);
    m.RemoveWall(0, 1, South);
    m.RemoveWall(1, 0, South);
    m.RemoveWall(1, 1, East);
    OpenedByRemovals();
    s := m.String();
    OpenedLines();
    UnlinesFive(Lines(Opened));
    assert "+--+--+" + "\n" == "+--+--+\n";
    assert "|     |" + "\n" == "|     |\n";
    assert "+--+  +" + "\n" == "+--+  +\n";
    assert "|  |   " + "\n" == "|  |   \n";
    assert "+  +--+" + "\n" == "+  +--+\n";
  }

  /** ParseMaze(""): the trimmed input splits into a single empty line. */
  lemma EmptyInputRejected()
    ensures Decode("") == Failure(TooFewLines)
  {
    assert TrimSpace("") == "";
  }

  /** ParseMaze("+--+\n|  |  |\n+--+"): the top line gives width 1 and
      height 1, and the content line of row 0 has 7 characters, not 4. */
  lemma BadLineLengthRejected()
    ensures Decode("+--+\n|  |  |\n+--+") == Failure(InvalidLineLength(0))
  {
    var lines := ["+--+", "|  |  |", "+--+"];
    BadLineLengthLines();
    assert DerivedWidth(lines) == 1 && DerivedHeight(lines) == 1;
    assert CheckRows(lines, 1, 0, 1) == Some(InvalidLineLength(0));
    assert DecodeLines(lines) == Failure(InvalidLineLength(0));
  }

  /** The input of BadLineLengthRejected splits into its three lines. */
  lemma BadLineLengthLines()
    ensures SplitLines("+--+\n|  |  |\n+--+") == ["+--+", "|  |  |", "+--+"]
  {
    var s := "+--+\n|  |  |\n+--+";
    var lines := ["+--+", "|  |  |", "+--+"];
    assert TrimLeft(s) == s;
    assert TrimRight(s) == s;
    assert Join(lines[..2], '\n') == "+--+\n|  |  |";
    assert Join(lines, '\n') == s;
    forall i | 0 <= i < 3
      ensures '\n' !in lines[i]
    {
    }
    SplitJoin(lines, '\n');
  }
}
