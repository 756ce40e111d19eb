/** The grid model of the maze engine (game/maze.go): the four directions,
    a cell's four wall flags, and the value of a whole maze, that is its
    width, its height and its rows of cells.  The class that the game
    mutates in place (module Mazes) is specified in terms of these values. */
module Grid {

  /** MazeDirection, an iota enumeration: North = 0, East = 1, South = 2, West = 3. */
  datatype Direction = North | East | South | West {

    /** The integer the Go constant stands for. */
    function Index(): (i: nat)
      ensures i < 4
    {
      match this
      case North => 0
      case East => 1
      case South => 2
      case West => 3
    }

    /** MazeDirection.Opposite: North and South swap, East and West swap. */
    function Opposite(): (r: Direction)
      ensures r != this
      ensures r.Index() == (Index() + 2) % 4
    {
      match this
      case North => South
      case South => North
      case East => West
      case West => East
    }
  }

  /** The conversion MazeDirection(i) for the four values a direction can take. */
  function FromIndex(i: int): (d: Direction)
    requires 0 <= i < 4
    ensures d.Index() == i
  {
    if i == 0 then North else if i == 1 then East else if i == 2 then South else West
  }

  lemma OppositeIsInvolution(d: Direction)
    ensures d.Opposite().Opposite() == d
  {
  }

  /** A (column, row) pair of the grid; rows grow downwards, so North is y - 1. */
  datatype Position = Position(x: int, y: int)

  /** The cell one step from (x, y) in direction d, as the switch statements
      of RemoveWall, AddWall and generateMazeDFS compute it. */
  function Neighbour(x: int, y: int, d: Direction): Position
  {
    match d
    case North => Position(x, y - 1)
    case East => Position(x + 1, y)
    case South => Position(x, y + 1)
    case West => Position(x - 1, y)
  }

  /** A step changes exactly one coordinate by one: North decreases y, South
      increases it, East increases x and West decreases it. */
  lemma NeighbourStep(x: int, y: int, d: Direction)
    ensures var n := Neighbour(x, y, d);
            && (n.x == x || n.y == y)
            && (n.x + n.y == x + y + 1 || n.x + n.y == x + y - 1)
            && (n.y < y <==> d == North) && (n.x > x <==> d == East)
            && (n.y > y <==> d == South) && (n.x < x <==> d == West)
  {
  }

  /** Stepping back in the opposite direction returns to the start, and the
      step moves exactly one row or one column. */
  lemma NeighbourOfNeighbour(x: int, y: int, d: Direction)
    ensures Neighbour(Neighbour(x, y, d).x, Neighbour(x, y, d).y, d.Opposite()) == Position(x, y)
    ensures Neighbour(x, y, d) != Position(x, y)
  {
  }

  /** Cell: the four wall flags, indexed by direction as the Go array Walls[4]. */
  datatype Cell = Cell(north: bool, east: bool, south: bool, west: bool) {

    function Wall(d: Direction): bool
    {
      match d
      case North => north
      case East => east
      case South => south
      case West => west
    }

    /** The assignment Walls[d] = b: flag d becomes b, the other three are kept. */
    function SetWall(d: Direction, b: bool): (c: Cell)
      ensures c.Wall(d) == b
      ensures forall e :: e != d ==> c.Wall(e) == Wall(e)
    {
      match d
      case North => this.(north := b)
      case East => this.(east := b)
      case South => this.(south := b)
      case West => this.(west := b)
    }
  }

  /** A cell with all four walls, the state NewMaze gives every cell. */
  const Enclosed: Cell := Cell(true, true, true, true)

  /** The value of a Maze: Width, Height and Grid indexed [row][column]. */
  datatype Layout = Layout(width: int, height: int, grid: seq<seq<Cell>>) {

    /** Height rows of Width cells each. */
    predicate WellFormed()
    {
      && 0 <= width
      && 0 <= height
      && |grid| == height
      && forall y :: 0 <= y < height ==> |grid[y]| == width
    }

    /** Maze.IsValidPosition. */
    predicate IsValidPosition(x: int, y: int)
    {
      0 <= x < width && 0 <= y < height
    }

    /** Maze.HasWall: out of bounds counts as a wall, otherwise the cell's flag. */
    function HasWall(x: int, y: int, d: Direction): bool
      requires WellFormed()
    {
      if !IsValidPosition(x, y) then true else grid[y][x].Wall(d)
    }

    /** The wall symmetry invariant: both sides of every interior edge agree. */
    ghost predicate Symmetric()
      requires WellFormed()
    {
      forall x, y, d ::
        IsValidPosition(x, y) &&
        IsValidPosition(Neighbour(x, y, d).x, Neighbour(x, y, d).y) ==>
          HasWall(x, y, d) == HasWall(Neighbour(x, y, d).x, Neighbour(x, y, d).y, d.Opposite())
    }

    /** One write Grid[y][x].Walls[d] = b of an in-bounds cell. */
    function SetFlag(x: int, y: int, d: Direction, b: bool): (r: Layout)
      requires WellFormed() && IsValidPosition(x, y)
      ensures r.WellFormed() && r.width == width && r.height == height
    {
      this.(grid := grid[y := grid[y][x := grid[y][x].SetWall(d, b)]])
    }

    /** The common body of RemoveWall (b = false) and AddWall (b = true):
        nothing happens out of bounds; otherwise flag d of (x, y) becomes b and,
        when the neighbour in direction d is in bounds, so does its flag for
        the opposite direction (SetWallEffect). */
    function SetWall(x: int, y: int, d: Direction, b: bool): (r: Layout)
      requires WellFormed()
      ensures r.WellFormed() && r.width == width && r.height == height
      ensures !IsValidPosition(x, y) ==> r == this
    {
      if !IsValidPosition(x, y) then this
      else
        var once := SetFlag(x, y, d, b);
        var n := Neighbour(x, y, d);
        if IsValidPosition(n.x, n.y) then once.SetFlag(n.x, n.y, d.Opposite(), b) else once
    }
  }

  /** A single flag write changes that flag and no other. */
  lemma SetFlagEffect(l: Layout, x: int, y: int, d: Direction, b: bool)
    requires l.WellFormed() && l.IsValidPosition(x, y)
    ensures forall x', y', d' ::
              l.SetFlag(x, y, d, b).HasWall(x', y', d') ==
              if x' == x && y' == y && d' == d then b else l.HasWall(x', y', d')
  {
  }

  /** What RemoveWall and AddWall change: in bounds, exactly flag d of (x, y)
      and, when that neighbour is in bounds, the opposite flag of the
      neighbour in direction d become b; every other flag is kept. */
  lemma SetWallEffect(l: Layout, x: int, y: int, d: Direction, b: bool)
    requires l.WellFormed()
    ensures forall x', y', d' ::
              l.SetWall(x, y, d, b).HasWall(x', y', d') ==
              if l.IsValidPosition(x, y) &&
                 ((x' == x && y' == y && d' == d) ||
                  (Neighbour(x, y, d) == Position(x', y') && l.IsValidPosition(x', y') && d' == d.Opposite()))
              then b
              else l.HasWall(x', y', d')
  {
    if l.IsValidPosition(x, y) {
      SetFlagEffect(l, x, y, d, b);
      var n := Neighbour(x, y, d);
      NeighbourOfNeighbour(x, y, d);
      if l.IsValidPosition(n.x, n.y) {
        SetFlagEffect(l.SetFlag(x, y, d, b), n.x, n.y, d.Opposite(), b);
      }
    }
  }

  /** Two well-formed layouts of the same size that agree on every wall query are equal. */
  lemma {:induction false} LayoutExtensionality(a: Layout, b: Layout)
    requires a.WellFormed() && b.WellFormed()
    requires a.width == b.width && a.height == b.height
    requires forall x, y, d :: a.HasWall(x, y, d) == b.HasWall(x, y, d)
    ensures a == b
  {
    forall y | 0 <= y < a.height
      ensures a.grid[y] == b.grid[y]
    {
      forall x | 0 <= x < a.width
        ensures a.grid[y][x] == b.grid[y][x]
      {
        assert a.HasWall(x, y, North) == b.HasWall(x, y, North);
        assert a.HasWall(x, y, East) == b.HasWall(x, y, East);
        assert a.HasWall(x, y, South) == b.HasWall(x, y, South);
        assert a.HasWall(x, y, West) == b.HasWall(x, y, West);
      }
    }
  }

  /** NewMaze's value: height rows of width cells, every cell enclosed. */
  function Full(width: int, height: int): (l: Layout)
    requires 0 <= width && 0 <= height
    ensures l.WellFormed() && l.width == width && l.height == height
    ensures forall x, y, d :: l.HasWall(x, y, d)
  {
    Layout(width, height, seq(height, _ => seq(width, _ => Enclosed)))
  }

  /** A fully walled maze is symmetric. */
  lemma FullIsSymmetric(width: int, height: int)
    requires 0 <= width && 0 <= height
    ensures Full(width, height).Symmetric()
  {
  }

  /** Boundary implies wall: any query outside the grid reports a wall. */
  lemma OutOfBoundsIsWall(l: Layout, x: int, y: int, d: Direction)
    requires l.WellFormed() && !l.IsValidPosition(x, y)
    ensures l.HasWall(x, y, d)
  {
  }

  /** RemoveWall and AddWall keep a symmetric maze symmetric. */
  lemma SetWallKeepsSymmetry(l: Layout, x: int, y: int, d: Direction, b: bool)
    requires l.WellFormed() && l.Symmetric()
    ensures l.SetWall(x, y, d, b).Symmetric()
  {
    var r := l.SetWall(x, y, d, b);
    SetWallEffect(l, x, y, d, b);
    forall x', y', d' |
      r.IsValidPosition(x', y') && r.IsValidPosition(Neighbour(x', y', d').x, Neighbour(x', y', d').y)
      ensures r.HasWall(x', y', d') ==
              r.HasWall(Neighbour(x', y', d').x, Neighbour(x', y', d').y, d'.Opposite())
    {
      var n' := Neighbour(x', y', d');
      NeighbourOfNeighbour(x', y', d');
      NeighbourOfNeighbour(x, y, d);
      OppositeIsInvolution(d);
      OppositeIsInvolution(d');
      assert l.HasWall(x', y', d') == l.HasWall(n'.x, n'.y, d'.Opposite());
    }
  }
}
