/** The playing screen of game/screen_maze.go: the player stands in a cell
    of a parsed maze and faces one direction, which turns clockwise every
    rotation interval; Enter steps forward through an open wall, and
    stepping through an open wall out of the grid wins.  Keyboard polling
    becomes the booleans escape and enter, and the rotation interval in
    ticks becomes the integer threshold. */
module MazeScreens {
  import opened Grid
  import opened Text
  import opened Mazes
  import Generator
  import Scenarios

  // ---------------------------------------------------------------------------
  // The player and one tick of Update, as values
  // ---------------------------------------------------------------------------

  /** The direction after one turn: MazeDirection((int(d) + 1) % 4). */
  function Turn(d: Direction): (r: Direction)
    ensures r.Index() == (d.Index() + 1) % 4
  {
    FromIndex((d.Index() + 1) % 4)
  }

  /** Turning goes North, East, South, West and back to North. */
  lemma TurnCycle(d: Direction)
    ensures Turn(North) == East && Turn(East) == South && Turn(South) == West && Turn(West) == North
    ensures Turn(Turn(Turn(Turn(d)))) == d
    ensures Turn(d) != d
  {
    assert Turn(North) == East && Turn(East) == South && Turn(South) == West && Turn(West) == North;
    match d
    case North =>
    case East =>
    case South =>
    case West =>
  }

  /** The fields of MazeScreen that Update reads and writes. */
  datatype Player = Player(x: int, y: int, facing: Direction, ticks: int, hasWon: bool, exitDirection: Direction)

  /** One call of Update on maze l: nothing once escape is pressed or the
      game is won; otherwise the counter advances and, on reaching the
      threshold, the player turns and the counter restarts; then, on Enter,
      an open wall towards the outside of the grid wins, an open wall
      towards a cell of the grid moves the player there, and a closed wall
      changes nothing. */
  function Step(l: Layout, p: Player, escape: bool, enter: bool, threshold: int): Player
    requires l.WellFormed()
  {
    if escape || p.hasWon then p
    else
      var counted := p.(ticks := p.ticks + 1);
      var turned := if counted.ticks >= threshold then counted.(facing := Turn(p.facing), ticks := 0) else counted;
      if !enter then turned
      else
        var next := Neighbour(turned.x, turned.y, turned.facing);
        var open := !l.HasWall(turned.x, turned.y, turned.facing);
        if open && !l.IsValidPosition(next.x, next.y) then
          turned.(hasWon := true, exitDirection := turned.facing)
        else if l.IsValidPosition(next.x, next.y) && open then
          turned.(x := next.x, y := next.y)
        else
          turned
  }

  /** Escape, or a game already won, leaves the state as it is. */
  lemma StepFrozen(l: Layout, p: Player, escape: bool, enter: bool, threshold: int)
    requires l.WellFormed() && (escape || p.hasWon)
    ensures Step(l, p, escape, enter, threshold) == p
  {
  }

  /** The rotation counter: one more tick, or a turn and a restart at the
      threshold; Enter does not affect the direction. */
  lemma StepRotation(l: Layout, p: Player, enter: bool, threshold: int)
    requires l.WellFormed() && !p.hasWon
    ensures var r := Step(l, p, false, enter, threshold);
            if p.ticks + 1 >= threshold then r.facing == Turn(p.facing) && r.ticks == 0
            else r.facing == p.facing && r.ticks == p.ticks + 1
  {
  }

  /** Without Enter the player stays in place and does not win. */
  lemma StepWithoutEnter(l: Layout, p: Player, threshold: int)
    requires l.WellFormed()
    ensures var r := Step(l, p, false, false, threshold);
            r.x == p.x && r.y == p.y && r.hasWon == p.hasWon && r.exitDirection == p.exitDirection
  {
  }

  /** Winning: the game becomes won exactly when Enter is pressed facing an
      open wall whose far side is outside the grid; the exit direction is
      then the facing direction and the player does not move. */
  lemma StepWin(l: Layout, p: Player, enter: bool, threshold: int)
    requires l.WellFormed() && !p.hasWon
    ensures var r := Step(l, p, false, enter, threshold);
            var next := Neighbour(p.x, p.y, r.facing);
            && (r.hasWon <==> enter && !l.HasWall(p.x, p.y, r.facing) && !l.IsValidPosition(next.x, next.y))
            && (r.hasWon ==> r.exitDirection == r.facing && r.x == p.x && r.y == p.y)
  {
  }

  /** Moving: the player moves exactly when Enter is pressed facing an open
      wall whose far side is in the grid, and then by one cell in the
      facing direction; otherwise the position is kept. */
  lemma StepMove(l: Layout, p: Player, enter: bool, threshold: int)
    requires l.WellFormed() && !p.hasWon
    ensures var r := Step(l, p, false, enter, threshold);
            var next := Neighbour(p.x, p.y, r.facing);
            if enter && !l.HasWall(p.x, p.y, r.facing) && l.IsValidPosition(next.x, next.y)
            then Position(r.x, r.y) == next && !r.hasWon
            else r.x == p.x && r.y == p.y
  {
  }

  /** A move is one step of a walk through the open walls of the maze. */
  lemma StepIsWalk(l: Layout, p: Player, escape: bool, enter: bool, threshold: int)
    requires l.WellFormed()
    ensures var r := Step(l, p, escape, enter, threshold);
            Position(r.x, r.y) != Position(p.x, p.y) ==>
              Generator.Walk(l, Position(p.x, p.y), [r.facing]) == Some(Position(r.x, r.y))
  {
    var r := Step(l, p, escape, enter, threshold);
    if Position(r.x, r.y) != Position(p.x, p.y) {
      assert [r.facing][1..] == [];
    }
  }

  /** A player inside the grid stays inside it. */
  lemma StepStaysInside(l: Layout, p: Player, escape: bool, enter: bool, threshold: int)
    requires l.WellFormed() && l.IsValidPosition(p.x, p.y)
    ensures var r := Step(l, p, escape, enter, threshold);
            l.IsValidPosition(r.x, r.y)
  {
  }

  // ---------------------------------------------------------------------------
  // MazeScreen
  // ---------------------------------------------------------------------------

  class MazeScreen {
    var maze: Maze
    var playerX: int
    var playerY: int
    var playerDirection: Direction
    var ticksSinceLastRotation: int
    var hasWon: bool
    /** The direction the player left the maze by. */
    var exitDirection: Direction

    function State(): Player
      reads this
    {
      Player(playerX, playerY, playerDirection, ticksSinceLastRotation, hasWon, exitDirection)
    }

    /** The struct literal of NewMazeScreen; fields it leaves out take Go's
        zero values (exitDirection is North). */
    constructor (maze: Maze)
      ensures this.maze == maze
      ensures State() == Player(0, 0, North, 0, false, North)
    {
      this.maze := maze;
      playerX, playerY := 0, 0;
      playerDirection := North;
      ticksSinceLastRotation := 0;
      hasWon := false;
      exitDirection := North;
    }

    /** MazeScreen.Update: the rotation, move and win logic of one tick. */
    method Update(escape: bool, enter: bool, threshold: int)
      requires maze.Valid()
      modifies this
      ensures maze == old(maze)
      ensures State() == Step(maze.Snapshot(), old(State()), escape, enter, threshold)
    {
      if escape {
        return;
      }
      if hasWon {
        return;
      }
      ticksSinceLastRotation := ticksSinceLastRotation + 1;
      if ticksSinceLastRotation >= threshold {
        playerDirection := FromIndex((playerDirection.Index() + 1) % 4);
        ticksSinceLastRotation := 0;
      }
      if enter {
        var nextX, nextY := playerX, playerY;
        match playerDirection {
          case North => nextY := nextY - 1;
          case East => nextX := nextX + 1;
          case South => nextY := nextY + 1;
          case West => nextX := nextX - 1;
        }
        assert Position(nextX, nextY) == Neighbour(playerX, playerY, playerDirection);
        var wall := maze.HasWall(playerX, playerY, playerDirection);
        if !wall && (nextX < 0 || nextX >= maze.width || nextY < 0 || nextY >= maze.height) {
          hasWon := true;
          exitDirection := playerDirection;
          return;
        }
        wall := maze.HasWall(playerX, playerY, playerDirection);
        if nextX >= 0 && nextX < maze.width && nextY >= 0 && nextY < maze.height && !wall {
          playerX := nextX;
          playerY := nextY;
        }
      }
    }
  }

  // ---------------------------------------------------------------------------
  // NewMazeScreen and its fixed layout
  // ---------------------------------------------------------------------------

  /** mazeString, the fixed 3 x 3 layout of NewMazeScreen. */
  const ScreenText: string :=
    "+--+--+--+\n" +
    "|  |  |   \n" +
    "+  +--+  +\n" +
    "|        |\n" +
    "+  +  +--+\n" +
    "|  |     |\n" +
    "+--+--+--+"

  /** The maze ScreenText describes: cells (North, East, South, West). */
  const ScreenLayout: Layout := Layout(3, 3, [
    [Cell(true, true, false, true), Cell(true, true, true, true), Cell(true, false, false, true)],
    [Cell(false, false, false, true), Cell(true, false, false, false), Cell(false, true, true, false)],
    [Cell(false, true, true, true), Cell(false, false, true, true), Cell(true, true, true, false)]])

  /** NewMazeScreen: parse mazeString and place the player at (0, 0) facing
      North; a parse error is passed on. */
  method NewMazeScreen() returns (r: Result<MazeScreen, ParseError>)
    ensures r.Success? <==> Decode(ScreenText).Success?
    ensures r.Success? ==>
              && fresh(r.value) && fresh(r.value.maze) && r.value.maze.Valid()
              && r.value.maze.Snapshot() == Decode(ScreenText).value
              && r.value.State() == Player(0, 0, North, 0, false, North)
    ensures r.Failure? ==> r.error == Decode(ScreenText).error
  {
    var parsed := ParseMaze(ScreenText);
    if parsed.Failure? {
      return Failure(parsed.error);
    }
    var screen := new MazeScreen(parsed.value);
    return Success(screen);
  }

  lemma ScreenFirstRow()
    ensures ContentLine(ScreenLayout, 0) == "|  |  |   " && WallLine(ScreenLayout, 0) == "+  +--+  +"
  {
    var l := ScreenLayout;
    assert ContentCells(l, 0, 1) == "  |" && ContentCells(l, 0, 2) == "  |  |";
    assert ContentCells(l, 0, 3) == "  |  |   ";
    assert WallCells(l, 0, 1) == "+  " && WallCells(l, 0, 2) == "+  +--";
    assert WallCells(l, 0, 3) == "+  +--+  ";
  }

  lemma ScreenSecondRow()
    ensures ContentLine(ScreenLayout, 1) == "|        |" && WallLine(ScreenLayout, 1) == "+  +  +--+"
  {
    var l := ScreenLayout;
    assert ContentCells(l, 1, 1) == "   " && ContentCells(l, 1, 2) == "      ";
    assert ContentCells(l, 1, 3) == "        |";
    assert WallCells(l, 1, 1) == "+  " && WallCells(l, 1, 2) == "+  +  ";
    assert WallCells(l, 1, 3) == "+  +  +--";
  }

  lemma ScreenThirdRow()
    ensures ContentLine(ScreenLayout, 2) == "|  |     |" && WallLine(ScreenLayout, 2) == "+--+--+--+"
  {
    var l := ScreenLayout;
    assert ContentCells(l, 2, 1) == "  |" && ContentCells(l, 2, 2) == "  |   ";
    assert ContentCells(l, 2, 3) == "  |     |";
    assert WallCells(l, 2, 1) == "+--" && WallCells(l, 2, 2) == "+--+--";
    assert WallCells(l, 2, 3) == "+--+--+--";
  }

  lemma ScreenRowLines()
    ensures RowLines(ScreenLayout, 3) ==
            ["|  |  |   ", "+  +--+  +", "|        |", "+  +  +--+", "|  |     |", "+--+--+--+"]
  {
    var l := ScreenLayout;
    ScreenFirstRow();
    ScreenSecondRow();
    ScreenThirdRow();
    assert RowLines(l, 1) == ["|  |  |   ", "+  +--+  +"];
    assert RowLines(l, 2) == ["|  |  |   ", "+  +--+  +", "|        |", "+  +  +--+"];
  }

  lemma ScreenLines()
    ensures Lines(ScreenLayout) ==
            ["+--+--+--+", "|  |  |   ", "+  +--+  +", "|        |", "+  +  +--+", "|  |     |", "+--+--+--+"]
  {
    ScreenTopBorder();
    ScreenRowLines();
    assert Lines(ScreenLayout) == [TopBorder(3)] + RowLines(ScreenLayout, 3);
  }

  lemma ScreenTopBorder()
    ensures TopBorder(3) == "+--+--+--+"
  {
    assert TopRun(3) == "+--+--+--";
  }

  /** String() of the screen's maze gives mazeString back, with the final
      newline String always writes. */
  lemma ScreenEncoding()
    ensures Encode(ScreenLayout) == ScreenText + "\n"
  {
    ScreenLines();
    ScreenTextLines();
  }

  /** mazeString with a final newline is its seven lines, each ended. */
  lemma ScreenTextLines()
    ensures Unlines(["+--+--+--+", "|  |  |   ", "+  +--+  +", "|        |", "+  +  +--+", "|  |     |", "+--+--+--+"])
            == ScreenText + "\n"
  {
    var ls := ["+--+--+--+", "|  |  |   ", "+  +--+  +", "|        |", "+  +  +--+", "|  |     |", "+--+--+--+"];
    Scenarios.UnlinesSeven(ls);
    var border := "+--+--+--+";
    assert border + "\n" == "+--+--+--+\n";
    assert "|  |  |   " + "\n" == "|  |  |   \n";
    assert "+  +--+  +" + "\n" == "+  +--+  +\n";
    assert "|        |" + "\n" == "|        |\n";
    assert "+  +  +--+" + "\n" == "+  +  +--+\n";
    assert "|  |     |" + "\n" == "|  |     |\n";
    Concatenation("+--+--+--+\n" + "|  |  |   \n" + "+  +--+  +\n" + "|        |\n" + "+  +  +--+\n" + "|  |     |\n",
                  border, "\n");
  }

  lemma Concatenation(a: string, b: string, c: string)
    ensures (a + b) + c == a + (b + c)
  {
  }

  /** Both sides of every wall of the screen's maze agree. */
  lemma ScreenLayoutSymmetric()
    ensures ScreenLayout.WellFormed() && ScreenLayout.Symmetric()
  {
    var l := ScreenLayout;
    assert l.WellFormed();
    forall x, y, d | l.IsValidPosition(x, y) && l.IsValidPosition(Neighbour(x, y, d).x, Neighbour(x, y, d).y)
      ensures l.HasWall(x, y, d) == l.HasWall(Neighbour(x, y, d).x, Neighbour(x, y, d).y, d.Opposite())
    {
    }
  }

  /** The screen's maze survives String and ParseMaze: its North walls of
      row 0 and West walls of column 0 are all present. */
  lemma ScreenRoundTrip()
    ensures Decode(Encode(ScreenLayout)) == Success(ScreenLayout)
  {
    ScreenLayoutSymmetric();
    RoundTrip(ScreenLayout);
  }

  /** ParseMaze ignores the final newline String writes after a last line
      that starts and ends with no white space. */
  lemma DecodeWithoutFinalNewline(t: string)
    requires |t| >= 1 && !IsSpace(t[0]) && !IsSpace(t[|t| - 1])
    ensures Decode(t + "\n") == Decode(t)
  {
    TrimFinalNewline(t);
    assert TrimLeft(t) == t;
    assert TrimRight(t) == t;
  }

  /** NewMazeScreen succeeds: mazeString parses to ScreenLayout. */
  lemma ScreenTextDecodes()
    ensures Decode(ScreenText) == Success(ScreenLayout)
  {
    ScreenEncoding();
    ScreenTextEnds();
    DecodeWithoutFinalNewline(ScreenText);
    ScreenRoundTrip();
  }

  /** mazeString starts and ends with a corner, so trimming leaves it whole. */
  lemma ScreenTextEnds()
    ensures |ScreenText| >= 1 && !IsSpace(ScreenText[0]) && !IsSpace(ScreenText[|ScreenText| - 1])
  {
    assert ScreenText[0] == '+' && ScreenText[|ScreenText| - 1] == '+';
  }

  /** The screen's maze has one way out: the East wall of (2, 0). */
  lemma ScreenExit()
    ensures ScreenLayout.WellFormed() && Generator.OnlyExit(ScreenLayout, Position(2, 0), East)
  {
    var l := ScreenLayout;
    assert l.WellFormed();
    forall x, y, e | l.IsValidPosition(x, y) && !l.IsValidPosition(Generator.Across(x, y, e).x, Generator.Across(x, y, e).y)
      ensures l.HasWall(x, y, e) <==> !(x == 2 && y == 0 && e == East)
    {
    }
  }

  /** From the start (0, 0) the exit can be reached: South, East, East,
      North, then East out of the grid. */
  lemma ScreenSolvable()
    ensures Generator.Walk(ScreenLayout, Position(0, 0), [South, East, East, North, East]) == Some(Position(3, 0))
  {
    var route := [South, East, East, North, East];
    assert route[1..] == [East, East, North, East];
    assert route[2..] == [East, North, East];
    assert route[3..] == [North, East];
    assert route[4..] == [East];
    assert route[5..] == [];
  }

  /** On the screen's maze a player inside the grid can win only from
      (2, 0), facing East. */
  lemma ScreenWinsOnlyEast(p: Player, enter: bool, threshold: int)
    requires ScreenLayout.IsValidPosition(p.x, p.y) && !p.hasWon
    ensures ScreenLayout.WellFormed()
    ensures Step(ScreenLayout, p, false, enter, threshold).hasWon ==>
              p.x == 2 && p.y == 0 && Step(ScreenLayout, p, false, enter, threshold).exitDirection == East
  {
    ScreenExit();
    var r := Step(ScreenLayout, p, false, enter, threshold);
    StepWin(ScreenLayout, p, enter, threshold);
    if r.hasWon {
      assert Generator.Across(p.x, p.y, r.facing) == Neighbour(p.x, p.y, r.facing);
    }
  }
}
