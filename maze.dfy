/** The mutable maze of game/maze.go: a class whose Grid the game updates in
    place, with NewMaze as its constructor, the wall queries and mutators,
    and the two string conversions String and ParseMaze.  Every method is
    specified by the value model of module Grid and the text model of module
    Text. */
module Mazes {
  import opened Grid
  import opened Text

  class Maze {
    const width: int
    const height: int
    /** Grid[y][x]; Go's slice of slices, reassigned one cell at a time. */
    var grid: seq<seq<Cell>>

    /** The value the maze currently holds. */
    function Snapshot(): Layout
      reads this
    {
      Layout(width, height, grid)
    }

    predicate Valid()
      reads this
    {
      Snapshot().WellFormed()
    }

    /** NewMaze: Height rows are allocated, each row is made Width cells
        long, and then every cell is given all four walls. */
    constructor (width: int, height: int)
      requires 0 <= width && 0 <= height
      ensures Valid() && Snapshot() == Full(width, height)
    {
      this.width := width;
      this.height := height;
      grid := seq(height, _ => []);
      new;
      for y := 0 to height
        invariant |grid| == height
        invariant forall y' :: 0 <= y' < y ==> grid[y'] == seq(width, _ => Enclosed)
      {
        grid := grid[y := seq(width, _ => Cell(false, false, false, false))];
        for x := 0 to width
          invariant |grid| == height && |grid[y]| == width
          invariant forall x' :: 0 <= x' < x ==> grid[y][x'] == Enclosed
          invariant forall y' :: 0 <= y' < y ==> grid[y'] == seq(width, _ => Enclosed)
        {
          grid := grid[y := grid[y][x := Enclosed]];
        }
        assert grid[y] == seq(width, _ => Enclosed);
      }
      assert grid == Full(width, height).grid;
    }

    /** IsValidPosition: the coordinates lie inside the grid. */
    predicate IsValidPosition(x: int, y: int)
      reads this
      ensures IsValidPosition(x, y) <==> Snapshot().IsValidPosition(x, y)
    {
      x >= 0 && x < width && y >= 0 && y < height
    }

    /** HasWall: out of bounds is a wall; otherwise the cell's own flag. */
    function HasWall(x: int, y: int, d: Direction): (b: bool)
      reads this
      requires Valid()
      ensures b == Snapshot().HasWall(x, y, d)
      ensures !IsValidPosition(x, y) ==> b
    {
      if !IsValidPosition(x, y) then true else grid[y][x].Wall(d)
    }

    /** RemoveWall: clears flag d of (x, y) and the matching flag of the
        neighbour beyond it; nothing happens out of bounds. */
    method RemoveWall(x: int, y: int, d: Direction)
      requires Valid()
      modifies this
      ensures Valid() && Snapshot() == old(Snapshot()).SetWall(x, y, d, false)
    {
      if !IsValidPosition(x, y) {
        return;
      }
      grid := grid[y := grid[y][x := grid[y][x].SetWall(d, false)]];
      var adj := Neighbour(x, y, d);
      if IsValidPosition(adj.x, adj.y) {
        grid := grid[adj.y := grid[adj.y][adj.x := grid[adj.y][adj.x].SetWall(d.Opposite(), false)]];
      }
    }

    /** AddWall: sets flag d of (x, y) and the matching flag of the
        neighbour beyond it; nothing happens out of bounds. */
    method AddWall(x: int, y: int, d: Direction)
      requires Valid()
      modifies this
      ensures Valid() && Snapshot() == old(Snapshot()).SetWall(x, y, d, true)
    {
      if !IsValidPosition(x, y) {
        return;
      }
      grid := grid[y := grid[y][x := grid[y][x].SetWall(d, true)]];
      var adj := Neighbour(x, y, d);
      if IsValidPosition(adj.x, adj.y) {
        grid := grid[adj.y := grid[adj.y][adj.x := grid[adj.y][adj.x].SetWall(d.Opposite(), true)]];
      }
    }

    /** String: the text a strings.Builder accumulates, row after row. */
    method String() returns (s: string)
      requires Valid()
      ensures s == Encode(Snapshot())
    {
      var l := Snapshot();
      var result := "";
      for x := 0 to width
        invariant result == TopRun(x)
      {
        result := result + "+--";
      }
      result := result + "+\n";
      assert result == Unlines([TopBorder(width)]);
      for y := 0 to height
        invariant result == Unlines([TopBorder(width)] + RowLines(l, y))
      {
        ghost var before := RowLines(l, y);
        result := WriteContentLine(result, y);
        result := WriteWallLine(result, y);
        UnlinesSnocPair([TopBorder(width)], before, ContentLine(l, y), WallLine(l, y));
        assert RowLines(l, y + 1) == before + [ContentLine(l, y), WallLine(l, y)];
      }
      s := result;
    }

    /** The first line String writes for row y: a '|', then two spaces and
        the East glyph for every cell, then a newline. */
    method WriteContentLine(result: string, y: int) returns (r: string)
      requires Valid()
      ensures r == result + ContentLine(Snapshot(), y) + "\n"
    {
      r := result + "|";
      for x := 0 to width
        invariant r == result + "|" + ContentCells(Snapshot(), y, x)
      {
        r := r + "  ";
        if HasWall(x, y, East) {
          r := r + "|";
        } else {
          r := r + " ";
        }
      }
      r := r + "\n";
    }

    /** The second line String writes for row y: a '+' and the South glyph
        for every cell, then "+" and a newline. */
    method WriteWallLine(result: string, y: int) returns (r: string)
      requires Valid()
      ensures r == result + WallLine(Snapshot(), y) + "\n"
    {
      r := result;
      for x := 0 to width
        invariant r == result + WallCells(Snapshot(), y, x)
      {
        r := r + "+";
        if HasWall(x, y, South) {
          r := r + "--";
        } else {
          r := r + "  ";
        }
      }
      r := r + "+\n";
    }
  }

  lemma UnlinesSnoc(ls: seq<string>, a: string)
    ensures Unlines(ls + [a]) == Unlines(ls) + a + "\n"
  {
    assert (ls + [a])[..|ls|] == ls;
  }

  lemma UnlinesSnocPair(top: seq<string>, ls: seq<string>, a: string, b: string)
    ensures Unlines(top + (ls + [a, b])) == Unlines(top + ls) + a + "\n" + b + "\n"
  {
    UnlinesSnoc(top + ls, a);
    UnlinesSnoc(top + ls + [a], b);
    assert top + (ls + [a, b]) == top + ls + [a] + [b];
  }

  lemma ApplyRemovalsSnoc(l: Layout, ops: seq<Removal>, o: Removal)
    requires l.WellFormed()
    ensures ApplyRemovals(l, ops + [o]) == ApplyRemovals(l, ops).SetWall(o.x, o.y, o.d, false)
  {
    assert (ops + [o])[..|ops|] == ops;
  }

  /** Once the rows before y are known to be well formed, the first bad row
      is the first bad row from y on. */
  lemma {:induction false} CheckRowsFrom(lines: seq<string>, width: int, y: nat, height: nat)
    requires 2 * height < |lines| && y <= height
    requires forall y' :: 0 <= y' < y ==> RowOk(lines, width, y')
    ensures CheckRows(lines, width, 0, height) == CheckRows(lines, width, y, height)
  {
    if y > 0 {
      assert RowOk(lines, width, y - 1);
      CheckRowsFrom(lines, width, y - 1, height);
    }
  }

  /** When the rows before y are well formed and row y is not, the first
      bad row is y, and the error names its content line if that has the
      wrong length and its wall line otherwise. */
  lemma FirstBadRow(lines: seq<string>, width: int, y: nat, height: nat)
    requires 2 * height < |lines| && y < height
    requires forall y' :: 0 <= y' < y ==> RowOk(lines, width, y')
    requires !RowOk(lines, width, y)
    ensures CheckRows(lines, width, 0, height) ==
            Some(if |lines[2 * y + 1]| != 3 * width + 1 then InvalidLineLength(y) else InvalidWallLineLength(y))
  {
    CheckRowsFrom(lines, width, y, height);
  }

  /** The West and East openings of the content line of row y. */
  method RemoveContentOpenings(maze: Maze, cellLine: string, y: int)
    requires maze.Valid() && |cellLine| == maze.width * 3 + 1
    modifies maze
    ensures maze.Valid()
    ensures maze.Snapshot() == ApplyRemovals(old(maze.Snapshot()), ContentRemovals(cellLine, y, maze.width))
  {
    ghost var start := maze.Snapshot();
    ghost var ops: seq<Removal> := [];
    for x := 0 to maze.width
      invariant maze.Valid()
      invariant ops == ContentRemovals(cellLine, y, x)
      invariant maze.Snapshot() == ApplyRemovals(start, ops)
    {
      ghost var done := ops;
      if x == 0 {
        if cellLine[0] != '|' {
          maze.RemoveWall(x, y, West);
          ApplyRemovalsSnoc(start, ops, Removal(x, y, West));
          ops := ops + [Removal(x, y, West)];
        }
      }
      ghost var west := ops;
      if cellLine[x * 3 + 3] == ' ' {
        maze.RemoveWall(x, y, East);
        ApplyRemovalsSnoc(start, ops, Removal(x, y, East));
        ops := ops + [Removal(x, y, East)];
      }
      assert ContentRemovals(cellLine, y, x + 1) ==
             done + (if x == 0 && cellLine[0] != '|' then [Removal(x, y, West)] else [])
                  + (if cellLine[x * 3 + 3] == ' ' then [Removal(x, y, East)] else []);
    }
  }

  /** The South openings of the wall line below row y. */
  method RemoveSouthOpenings(maze: Maze, wallLine: string, y: int)
    requires maze.Valid() && |wallLine| == maze.width * 3 + 1
    modifies maze
    ensures maze.Valid()
    ensures maze.Snapshot() == ApplyRemovals(old(maze.Snapshot()), SouthRemovals(wallLine, y, maze.width))
  {
    ghost var start := maze.Snapshot();
    ghost var ops: seq<Removal> := [];
    for x := 0 to maze.width
      invariant maze.Valid()
      invariant ops == SouthRemovals(wallLine, y, x)
      invariant maze.Snapshot() == ApplyRemovals(start, ops)
    {
      if wallLine[x * 3 + 1..x * 3 + 3] == "  " {
        maze.RemoveWall(x, y, South);
        ApplyRemovalsSnoc(start, ops, Removal(x, y, South));
        ops := ops + [Removal(x, y, South)];
      }
    }
  }

  /** The North openings of row 0 in the top line. */
  method RemoveNorthOpenings(maze: Maze, topLine: string)
    requires maze.Valid() && |topLine| >= maze.width * 3 + 1
    modifies maze
    ensures maze.Valid()
    ensures maze.Snapshot() == ApplyRemovals(old(maze.Snapshot()), NorthRemovals(topLine, maze.width))
  {
    ghost var start := maze.Snapshot();
    ghost var ops: seq<Removal> := [];
    for x := 0 to maze.width
      invariant maze.Valid()
      invariant ops == NorthRemovals(topLine, x)
      invariant maze.Snapshot() == ApplyRemovals(start, ops)
    {
      if topLine[x * 3 + 1..x * 3 + 3] == "  " {
        maze.RemoveWall(x, 0, North);
        ApplyRemovalsSnoc(start, ops, Removal(x, 0, North));
        ops := ops + [Removal(x, 0, North)];
      }
    }
  }

  /** ParseMaze: the maze the text describes, or the first error met.  The
      text is trimmed and split into lines; the width comes from the top
      line and the height from the number of lines. */
  method ParseMaze(s: string) returns (r: Result<Maze, ParseError>)
    ensures r.Success? <==> Decode(s).Success?
    ensures r.Failure? ==> r.error == Decode(s).error
    ensures r.Success? ==> fresh(r.value) && r.value.Valid() && r.value.Snapshot() == Decode(s).value
  {
    var lines := Split(TrimSpace(s), '\n');
    if |lines| < 3 {
      return Failure(TooFewLines);
    }
    var width := GoQuotient(|lines[0]| - 1, 3);
    var height := (|lines| - 1) / 2;
    if width < 1 || height < 1 {
      return Failure(InvalidDimensions(width, height));
    }
    assert 3 * width + 1 <= |lines[0]| && 2 * height < |lines|;
    r := ParseRows(lines, width, height);
  }

  /** The row loop of ParseMaze, rows read top to bottom. */
  method ParseRows(lines: seq<string>, width: nat, height: nat) returns (r: Result<Maze, ParseError>)
    requires 2 * height < |lines| && 3 * width + 1 <= |lines[0]|
    ensures r.Failure? <==> CheckRows(lines, width, 0, height).Some?
    ensures r.Failure? ==> r.error == CheckRows(lines, width, 0, height).value
    ensures r.Success? ==>
              && Shaped(lines, width, height)
              && fresh(r.value) && r.value.Valid() && r.value.Snapshot() == Parsed(lines, width, height)
  {
    var maze := new Maze(width, height);
    for y := 0 to height
      invariant fresh(maze) && maze.Valid() && maze.width == width && maze.height == height
      invariant Shaped(lines, width, y)
      invariant maze.Snapshot() == ParsedUpTo(lines, width, height, y)
    {
      var e := ParseRow(maze, lines, width, height, y);
      if e.Some? {
        FirstBadRow(lines, width, y, height);
        return Failure(e.value);
      }
      assert Shaped(lines, width, y + 1);
    }
    CheckRowsFrom(lines, width, height, height);
    return Success(maze);
  }

  /** One row of ParseMaze: the content line's length is checked and its West
      and East openings are removed, then the wall line's length is checked
      and its South openings are removed, and for row 0 the top line's North
      openings are removed.  The error is the first length check that fails. */
  method ParseRow(maze: Maze, lines: seq<string>, width: nat, height: nat, y: nat) returns (e: Option<ParseError>)
    requires maze.Valid() && maze.width == width && maze.height == height
    requires y < height && 2 * height < |lines| && 3 * width + 1 <= |lines[0]|
    modifies maze
    ensures maze.Valid()
    ensures e.None? <==> RowOk(lines, width, y)
    ensures e.Some? ==>
              e.value == if |lines[2 * y + 1]| != 3 * width + 1 then InvalidLineLength(y) else InvalidWallLineLength(y)
    ensures e.None? ==> maze.Snapshot() == ApplyRemovals(old(maze.Snapshot()), RowRemovals(lines, width, y))
  {
    ghost var start := maze.Snapshot();
    var cellLine := lines[y * 2 + 1];
    if |cellLine| != width * 3 + 1 {
      return Some(InvalidLineLength(y));
    }
    RemoveContentOpenings(maze, cellLine, y);
    ghost var afterContent := maze.Snapshot();
    // Always true, since y < height; kept as the code has it.
    if y < height {
      var wallLine := lines[y * 2 + 2];
      if |wallLine| != width * 3 + 1 {
        return Some(InvalidWallLineLength(y));
      }
      RemoveSouthOpenings(maze, wallLine, y);
    }
    ghost var afterSouth := maze.Snapshot();
    if y == 0 {
      var topLine := lines[0];
      RemoveNorthOpenings(maze, topLine);
    }
    RowRemovalsInPhases(start, lines, width, y);
    return None;
  }
}
