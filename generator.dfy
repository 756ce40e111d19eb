/** The random maze generator of game/maze.go: the recursive backtracker
    generateMazeDFS, the Fisher-Yates shuffle of the four directions it
    tries, and GenerateMaze, which carves a maze from a random start and then
    opens one wall of the boundary as the exit.  The random source is an
    oracle: draw k of rand.Intn(n) is oracle(k) % n. */
module Generator {
  import opened Grid
  import opened Text
  import opened Mazes

  /** math/rand's global source, reduced to the draws it hands out. */
  class Rand {
    /** The number each draw is taken from. */
    const oracle: nat -> nat
    /** How many draws have been made. */
    var draws: nat

    constructor (oracle: nat -> nat)
      ensures this.oracle == oracle && draws == 0
    {
      this.oracle := oracle;
      draws := 0;
    }

    /** rand.Intn(n), which panics unless n > 0: a number in [0, n). */
    method Intn(n: int) returns (r: int)
      requires n > 0
      modifies this
      ensures 0 <= r < n && r == oracle(old(draws)) % n
      ensures draws == old(draws) + 1
    {
      r := oracle(draws) % n;
      draws := draws + 1;
    }
  }

  // ---------------------------------------------------------------------------
  // shuffleDirections
  // ---------------------------------------------------------------------------

  /** The elements at i and j exchanged. */
  function Swap<T>(s: seq<T>, i: int, j: int): (r: seq<T>)
    requires 0 <= i < |s| && 0 <= j < |s|
    ensures |r| == |s| && r[i] == s[j] && r[j] == s[i]
    ensures forall k :: 0 <= k < |s| && k != i && k != j ==> r[k] == s[k]
  {
    s[i := s[j]][j := s[i]]
  }

  /** The Fisher-Yates steps i, i - 1, ..., 1 of shuffleDirections, with draw
      k onwards: step i swaps element i with element oracle(k) % (i + 1). */
  function Shuffled<T>(s: seq<T>, i: nat, oracle: nat -> nat, k: nat): seq<T>
    requires i < |s| || i == 0
    decreases i
  {
    if i == 0 then s else Shuffled(Swap(s, i, oracle(k) % (i + 1)), i - 1, oracle, k + 1)
  }

  /** One step of the shuffle from position i > 0: once element i is
      swapped with element oracle(k) % (i + 1), what remains to be done is
      the shuffle from i - 1 with the next draw. */
  lemma ShuffledStep<T>(before: seq<T>, after: seq<T>, i: nat, oracle: nat -> nat, k: nat)
    requires 0 < i < |before|
    requires after == Swap(before, i, oracle(k) % (i + 1))
    ensures Shuffled(after, i - 1, oracle, k + 1) == Shuffled(before, i, oracle, k)
  {
  }

  /** A swap permutes. */
  lemma SwapPermutes<T>(s: seq<T>, i: int, j: int)
    requires 0 <= i < |s| && 0 <= j < |s|
    ensures multiset(Swap(s, i, j)) == multiset(s)
  {
    if i != j {
      var t := s[i := s[j]];
      assert multiset(t) == multiset(s) - multiset{s[i]} + multiset{s[j]};
      assert multiset(t[j := s[i]]) == multiset(t) - multiset{t[j]} + multiset{s[i]};
    }
  }

  /** The shuffle leaves a permutation of its input. */
  lemma {:induction false} ShuffledPermutes<T>(s: seq<T>, i: nat, oracle: nat -> nat, k: nat)
    requires i < |s| || i == 0
    ensures |Shuffled(s, i, oracle, k)| == |s|
    ensures multiset(Shuffled(s, i, oracle, k)) == multiset(s)
    decreases i
  {
    if i > 0 {
      var j := oracle(k) % (i + 1);
      SwapPermutes(s, i, j);
      ShuffledPermutes(Swap(s, i, j), i - 1, oracle, k + 1);
    }
  }

  /** A permutation of the four directions holds each of them. */
  lemma ShuffledDirections(s: seq<Direction>)
    requires multiset(s) == multiset([North, East, South, West])
    ensures |s| == 4
    ensures forall d :: d in s
  {
    assert |multiset(s)| == 4;
    forall d: Direction
      ensures d in s
    {
      assert [North, East, South, West][d.Index()] == d;
      assert d in multiset([North, East, South, West]);
      assert d in multiset(s);
    }
  }

  /** shuffleDirections: for i from len - 1 down to 1, swap element i with
      element rand.Intn(i + 1). */
  method ShuffleDirections(dirs: array<Direction>, rand: Rand)
    modifies dirs, rand
    ensures dirs[..] == Shuffled(old(dirs[..]), Steps(dirs.Length), rand.oracle, old(rand.draws))
    ensures rand.draws == old(rand.draws) + Steps(dirs.Length)
  {
    if dirs.Length == 0 {
      return;
    }
    ghost var target := Shuffled(dirs[..], dirs.Length - 1, rand.oracle, rand.draws);
    ghost var start := rand.draws;
    var i := dirs.Length - 1;
    while i > 0
      invariant 0 <= i < dirs.Length
      invariant rand.draws == start + (dirs.Length - 1 - i)
      invariant Shuffled(dirs[..], i, rand.oracle, rand.draws) == target
    {
      SwapWithDrawn(dirs, i, rand, target);
      i := i - 1;
    }
  }

  /** The body of the loop of shuffleDirections: j := rand.Intn(i + 1), then
      elements i and j change places, which leaves the steps below i of the
      same shuffle to do. */
  method SwapWithDrawn(dirs: array<Direction>, i: int, rand: Rand, ghost target: seq<Direction>)
    requires 0 < i < dirs.Length
    requires Shuffled(dirs[..], i, rand.oracle, rand.draws) == target
    modifies dirs, rand
    ensures dirs[..] == Swap(old(dirs[..]), i, rand.oracle(old(rand.draws)) % (i + 1))
    ensures Shuffled(dirs[..], i - 1, rand.oracle, rand.draws) == target
    ensures rand.draws == old(rand.draws) + 1
  {
    ghost var before := dirs[..];
    var j := rand.Intn(i + 1);
    dirs[i], dirs[j] := dirs[j], dirs[i];
    ShuffledStep(before, dirs[..], i, rand.oracle, rand.draws - 1);
  }

  /** The number of swaps shuffleDirections makes on n elements. */
  function Steps(n: int): (s: nat)
    ensures n >= 1 ==> s == n - 1
  {
    if n <= 0 then 0 else n - 1
  }

  // ---------------------------------------------------------------------------
  // The spanning tree generateMazeDFS carves
  // ---------------------------------------------------------------------------

  /** Every cell of a width x height grid. */
  function AllCells(width: int, height: int): (r: set<Position>)
    ensures forall p {:trigger p in r} :: p in r <==> 0 <= p.x < width && 0 <= p.y < height
  {
    set x, y | 0 <= x < width && 0 <= y < height :: Position(x, y)
  }

  /** p hangs from the cell one step in direction d: that cell is one level
      closer to the root and the wall between them is open. */
  predicate Linked(l: Layout, depth: map<Position, nat>, p: Position, d: Direction)
    requires l.WellFormed() && p in depth
  {
    var q := Neighbour(p.x, p.y, d);
    q in depth && depth[p] == depth[q] + 1 && !l.HasWall(p.x, p.y, d)
  }

  /** The cell across the wall on side d of (x, y).  Facts about every wall
      of the grid are stated over this name, so that the verifier applies
      them only to the walls a proof asks about. */
  function Across(x: int, y: int, d: Direction): Position
  {
    Neighbour(x, y, d)
  }

  /** Every open wall between two cells of the grid is a tree edge: one of
      its two cells hangs from the other across it. */
  ghost predicate OnlyLinks(l: Layout, parent: map<Position, Direction>)
    requires l.WellFormed()
  {
    forall x, y, d {:trigger Across(x, y, d)} ::
      l.IsValidPosition(x, y) && l.IsValidPosition(Across(x, y, d).x, Across(x, y, d).y) &&
      !l.HasWall(x, y, d) ==>
        (Position(x, y) in parent && parent[Position(x, y)] == d) ||
        (Across(x, y, d) in parent && parent[Across(x, y, d)] == d.Opposite())
  }

  /** No wall facing out of the grid has been removed. */
  ghost predicate BoundaryIntact(l: Layout)
    requires l.WellFormed()
  {
    forall x, y, d {:trigger Across(x, y, d)} ::
      l.IsValidPosition(x, y) && !l.IsValidPosition(Across(x, y, d).x, Across(x, y, d).y) ==>
        l.HasWall(x, y, d)
  }

  /** The carving so far: the cells of depth form a tree rooted at root in
      which every other cell hangs from its parent (the neighbour in
      direction parent[p], one level closer to the root) across an open wall;
      these are the only open walls inside the grid, the boundary is intact
      and both sides of every wall agree. */
  ghost predicate Tree(l: Layout, root: Position, parent: map<Position, Direction>, depth: map<Position, nat>)
    requires l.WellFormed()
  {
    && root in depth && root !in parent && depth[root] == 0 && parent.Keys <= depth.Keys
    && (forall p {:trigger p in depth} :: p in depth ==> l.IsValidPosition(p.x, p.y))
    && (forall p {:trigger p in depth} :: p in depth && p != root ==> p in parent)
    && (forall p {:trigger parent[p]} :: p in parent ==> p in depth && Linked(l, depth, p, parent[p]))
    && OnlyLinks(l, parent)
    && BoundaryIntact(l)
    && l.Symmetric()
  }

  /** The fully walled maze with only the root visited is a tree. */
  lemma RootAlone(width: int, height: int, root: Position)
    requires 0 <= root.x < width && 0 <= root.y < height
    ensures Tree(Full(width, height), root, map[], map[root := 0])
  {
    FullIsSymmetric(width, height);
  }

  /** One step of generateMazeDFS: removing the wall from tree cell c towards
      an unvisited neighbour n inside the grid, and hanging n from c, keeps
      the tree. */
  lemma Attach(l: Layout, root: Position, parent: map<Position, Direction>, depth: map<Position, nat>,
               c: Position, d: Direction)
    requires l.WellFormed() && Tree(l, root, parent, depth) && c in depth
    requires l.IsValidPosition(Neighbour(c.x, c.y, d).x, Neighbour(c.x, c.y, d).y)
    requires Neighbour(c.x, c.y, d) !in depth
    ensures var n := Neighbour(c.x, c.y, d);
            Tree(l.SetWall(c.x, c.y, d, false), root, parent[n := d.Opposite()], depth[n := depth[c] + 1])
  {
    var n := Neighbour(c.x, c.y, d);
    var l' := l.SetWall(c.x, c.y, d, false);
    var parent' := parent[n := d.Opposite()];
    var depth' := depth[n := depth[c] + 1];
    SetWallKeepsSymmetry(l, c.x, c.y, d, false);
    AttachLinks(l, root, parent, depth, c, d);
    AttachOnlyLinks(l, root, parent, depth, c, d);
    AttachBoundary(l, root, parent, depth, c, d);
    assert root in depth' && root !in parent' && depth'[root] == 0;
    assert forall p :: p in depth' ==> l'.IsValidPosition(p.x, p.y);
    assert forall p :: p in depth' && p != root ==> p in parent';
    assert forall p {:trigger parent'[p]} :: p in parent' ==> p in depth' && Linked(l', depth', p, parent'[p]);
  }

  lemma AttachLinks(l: Layout, root: Position, parent: map<Position, Direction>, depth: map<Position, nat>,
                    c: Position, d: Direction)
    requires l.WellFormed() && Tree(l, root, parent, depth) && c in depth
    requires l.IsValidPosition(Neighbour(c.x, c.y, d).x, Neighbour(c.x, c.y, d).y)
    requires Neighbour(c.x, c.y, d) !in depth
    ensures var n := Neighbour(c.x, c.y, d);
            var depth' := depth[n := depth[c] + 1];
            forall p :: p in parent[n := d.Opposite()] ==>
              p in depth' && Linked(l.SetWall(c.x, c.y, d, false), depth', p, parent[n := d.Opposite()][p])
  {
    var n := Neighbour(c.x, c.y, d);
    var l' := l.SetWall(c.x, c.y, d, false);
    var parent' := parent[n := d.Opposite()];
    var depth' := depth[n := depth[c] + 1];
    SetWallEffect(l, c.x, c.y, d, false);
    NeighbourOfNeighbour(c.x, c.y, d);
    forall p | p in parent'
      ensures p in depth' && Linked(l', depth', p, parent'[p])
    {
      if p != n {
        assert Linked(l, depth, p, parent[p]);
      }
    }
  }

  lemma AttachOnlyLinks(l: Layout, root: Position, parent: map<Position, Direction>, depth: map<Position, nat>,
                        c: Position, d: Direction)
    requires l.WellFormed() && Tree(l, root, parent, depth) && c in depth
    requires l.IsValidPosition(Neighbour(c.x, c.y, d).x, Neighbour(c.x, c.y, d).y)
    requires Neighbour(c.x, c.y, d) !in depth
    ensures OnlyLinks(l.SetWall(c.x, c.y, d, false), parent[Neighbour(c.x, c.y, d) := d.Opposite()])
  {
    var n := Neighbour(c.x, c.y, d);
    var l' := l.SetWall(c.x, c.y, d, false);
    var parent' := parent[n := d.Opposite()];
    SetWallEffect(l, c.x, c.y, d, false);
    NeighbourOfNeighbour(c.x, c.y, d);
  }

  lemma AttachBoundary(l: Layout, root: Position, parent: map<Position, Direction>, depth: map<Position, nat>,
                       c: Position, d: Direction)
    requires l.WellFormed() && Tree(l, root, parent, depth) && c in depth
    requires l.IsValidPosition(Neighbour(c.x, c.y, d).x, Neighbour(c.x, c.y, d).y)
    ensures BoundaryIntact(l.SetWall(c.x, c.y, d, false))
  {
    SetWallEffect(l, c.x, c.y, d, false);
    NeighbourOfNeighbour(c.x, c.y, d);
  }

  /** A set of grid cells that holds a cell and every in-grid neighbour of
      each of its cells is the whole grid: the grid is connected. */
  lemma ClosedIsAll(s: set<Position>, width: int, height: int, start: Position)
    requires start in s
    requires forall p :: p in s ==> 0 <= p.x < width && 0 <= p.y < height
    requires ClosedBeyond(s, {}, width, height)
    ensures s == AllCells(width, height)
  {
    forall p, d | p in s && 0 <= Neighbour(p.x, p.y, d).x < width && 0 <= Neighbour(p.x, p.y, d).y < height
      ensures Neighbour(p.x, p.y, d) in s
    {
      assert Closed(s, width, height, p);
    }
    forall x | 0 <= x < width
      ensures Position(x, start.y) in s
    {
      RowReached(s, width, height, start, x);
    }
    forall p | p in AllCells(width, height)
      ensures p in s
    {
      ColumnReached(s, width, height, Position(p.x, start.y), p.y);
    }
  }

  lemma {:induction false} RowReached(s: set<Position>, width: int, height: int, start: Position, x: int)
    requires start in s && 0 <= x < width
    requires forall p, d :: p in s && 0 <= Neighbour(p.x, p.y, d).x < width && 0 <= Neighbour(p.x, p.y, d).y < height ==>
               Neighbour(p.x, p.y, d) in s
    requires forall p :: p in s ==> 0 <= p.x < width && 0 <= p.y < height
    ensures Position(x, start.y) in s
    decreases if x < start.x then start.x - x else x - start.x
  {
    if x < start.x {
      RowReached(s, width, height, start, x + 1);
      assert Neighbour(x + 1, start.y, West) == Position(x, start.y);
    } else if x > start.x {
      RowReached(s, width, height, start, x - 1);
      assert Neighbour(x - 1, start.y, East) == Position(x, start.y);
    }
  }

  lemma {:induction false} ColumnReached(s: set<Position>, width: int, height: int, start: Position, y: int)
    requires start in s && 0 <= y < height
    requires forall p, d :: p in s && 0 <= Neighbour(p.x, p.y, d).x < width && 0 <= Neighbour(p.x, p.y, d).y < height ==>
               Neighbour(p.x, p.y, d) in s
    requires forall p :: p in s ==> 0 <= p.x < width && 0 <= p.y < height
    ensures Position(start.x, y) in s
    decreases if y < start.y then start.y - y else y - start.y
  {
    if y < start.y {
      ColumnReached(s, width, height, start, y + 1);
      assert Neighbour(start.x, y + 1, North) == Position(start.x, y);
    } else if y > start.y {
      ColumnReached(s, width, height, start, y - 1);
      assert Neighbour(start.x, y - 1, South) == Position(start.x, y);
    }
  }

  // ---------------------------------------------------------------------------
  // generateMazeDFS and GenerateMaze
  // ---------------------------------------------------------------------------

  /** Every in-grid neighbour of p belongs to s. */
  ghost predicate Closed(s: set<Position>, width: int, height: int, p: Position)
  {
    forall d :: 0 <= Neighbour(p.x, p.y, d).x < width && 0 <= Neighbour(p.x, p.y, d).y < height ==>
      Neighbour(p.x, p.y, d) in s
  }

  /** The neighbour of (x, y) in direction d is outside the grid or in s. */
  ghost predicate Tried(s: set<Position>, width: int, height: int, x: int, y: int, d: Direction)
  {
    var n := Neighbour(x, y, d);
    0 <= n.x < width && 0 <= n.y < height ==> n in s
  }

  /** Every cell of s outside inner has all its in-grid neighbours in s. */
  ghost predicate ClosedBeyond(s: set<Position>, inner: set<Position>, width: int, height: int)
  {
    forall p :: p in s && p !in inner ==> Closed(s, width, height, p)
  }

  /** The first i directions of order have been tried from (x, y). */
  ghost predicate TriedUpTo(s: set<Position>, width: int, height: int, x: int, y: int, order: seq<Direction>, i: int)
  {
    forall k :: 0 <= k < i && k < |order| ==> Tried(s, width, height, x, y, order[k])
  }

  /** The cells visited are the cells of the tree but c. */
  ghost predicate VisitedBut(visited: array2<bool>, depth: map<Position, nat>, c: Position)
    reads visited
  {
    forall p: Position {:trigger visited[p.y, p.x]} {:trigger p in depth} :: 0 <= p.x < visited.Length1 && 0 <= p.y < visited.Length0 ==>
      (visited[p.y, p.x] <==> p in depth && p != c)
  }

  /** The cells visited are the cells of the tree. */
  ghost predicate VisitedIsTree(visited: array2<bool>, depth: map<Position, nat>)
    reads visited
  {
    forall p: Position {:trigger visited[p.y, p.x]} {:trigger p in depth} :: 0 <= p.x < visited.Length1 && 0 <= p.y < visited.Length0 ==>
      (visited[p.y, p.x] <==> p in depth)
  }

  /** The four directions in the order generateMazeDFS tries them: the
      slice {North, East, South, West} after shuffleDirections. */
  method ShuffledOrder(rand: Rand) returns (order: seq<Direction>)
    modifies rand
    ensures |order| == 4 && forall d :: d in order
    ensures order == Shuffled([North, East, South, West], 3, rand.oracle, old(rand.draws))
    ensures rand.draws == old(rand.draws) + 3
  {
    var dirs := new Direction[4][North, East, South, West];
    assert dirs[..] == [North, East, South, West];
    ShuffleDirections(dirs, rand);
    ShuffledPermutes([North, East, South, West], 3, rand.oracle, old(rand.draws));
    order := dirs[..];
    ShuffledDirections(order);
  }

  /** generateMazeDFS(maze, visited, x, y): mark (x, y) visited, then, for
      each direction in shuffled order whose neighbour is inside the grid
      and unvisited, remove the wall towards it and carve on from there.
      The ghost parameters record the tree: (x, y) already hangs from its
      parent in parent and depth, and the cells visited before are the rest
      of the tree.  On return every cell visited by this call has all its
      in-grid neighbours visited. */
  method GenerateMazeDFS(maze: Maze, visited: array2<bool>, x: int, y: int, rand: Rand,
                         ghost root: Position, ghost parent: map<Position, Direction>, ghost depth: map<Position, nat>)
      returns (ghost parent': map<Position, Direction>, ghost depth': map<Position, nat>)
    requires maze.Valid() && visited.Length0 == maze.height && visited.Length1 == maze.width
    requires maze.IsValidPosition(x, y) && !visited[y, x]
    requires Tree(maze.Snapshot(), root, parent, depth) && Position(x, y) in depth
    requires VisitedBut(visited, depth, Position(x, y))
    modifies maze, visited, rand
    decreases AllCells(maze.width, maze.height) - depth.Keys, 1
    ensures maze.Valid() && Tree(maze.Snapshot(), root, parent', depth')
    ensures depth.Keys <= depth'.Keys
    ensures VisitedIsTree(visited, depth')
    ensures ClosedBeyond(depth'.Keys, depth.Keys - {Position(x, y)}, maze.width, maze.height)
    ensures old(rand.draws) <= rand.draws
  {
    visited[y, x] := true;
    parent', depth' := parent, depth;
    var order := ShuffledOrder(rand);
    for i := 0 to 4
      invariant maze.Valid() && Tree(maze.Snapshot(), root, parent', depth')
      invariant depth.Keys <= depth'.Keys
      invariant VisitedIsTree(visited, depth')
      invariant ClosedBeyond(depth'.Keys, depth.Keys, maze.width, maze.height)
      invariant TriedUpTo(depth'.Keys, maze.width, maze.height, x, y, order, i)
      invariant old(rand.draws) <= rand.draws
    {
      ghost var outside := AllCells(maze.width, maze.height) - depth'.Keys;
      assert outside <= AllCells(maze.width, maze.height) - depth.Keys;
      parent', depth' := CarveTowards(maze, visited, x, y, order, i, rand, root, parent', depth', depth.Keys);
    }
    AllTried(depth'.Keys, depth.Keys, maze.width, maze.height, x, y, order);
  }

  /** One pass of the loop of generateMazeDFS, for direction order[i]: when
      the neighbour that way is inside the grid and unvisited, the wall
      towards it is removed and the carving goes on from there.  The cells
      visited keep hanging from the tree, those visited since the call on
      (x, y) began (outside inner) keep all their in-grid neighbours
      visited, and direction order[i] counts as tried. */
  method CarveTowards(maze: Maze, visited: array2<bool>, x: int, y: int, order: seq<Direction>, i: int, rand: Rand,
                      ghost root: Position, ghost parent: map<Position, Direction>, ghost depth: map<Position, nat>,
                      ghost inner: set<Position>)
      returns (ghost parent': map<Position, Direction>, ghost depth': map<Position, nat>)
    requires maze.Valid() && visited.Length0 == maze.height && visited.Length1 == maze.width
    requires 0 <= i < |order|
    requires Tree(maze.Snapshot(), root, parent, depth) && Position(x, y) in depth
    requires VisitedIsTree(visited, depth)
    requires inner <= depth.Keys && ClosedBeyond(depth.Keys, inner, maze.width, maze.height)
    requires TriedUpTo(depth.Keys, maze.width, maze.height, x, y, order, i)
    modifies maze, visited, rand
    decreases AllCells(maze.width, maze.height) - depth.Keys, 0
    ensures maze.Valid() && Tree(maze.Snapshot(), root, parent', depth')
    ensures depth.Keys <= depth'.Keys
    ensures VisitedIsTree(visited, depth')
    ensures ClosedBeyond(depth'.Keys, inner, maze.width, maze.height)
    ensures TriedUpTo(depth'.Keys, maze.width, maze.height, x, y, order, i + 1)
    ensures old(rand.draws) <= rand.draws
  {
    parent', depth' := parent, depth;
    var dir := order[i];
    var n := Neighbour(x, y, dir);
    if maze.IsValidPosition(n.x, n.y) && !visited[n.y, n.x] {
      ghost var before := maze.Snapshot();
      ghost var c := Position(x, y);
      ghost var parentN, depthN := parent[n := dir.Opposite()], depth[n := depth[c] + 1];
      maze.RemoveWall(x, y, dir);
      Attach(before, root, parent, depth, c, dir);
      Shrinks(maze.width, maze.height, depth.Keys, depth.Keys, n);
      assert depthN.Keys == depth.Keys + {n};
      parent', depth' := GenerateMazeDFS(maze, visited, n.x, n.y, rand, root, parentN, depthN);
      AfterChild(maze.width, maze.height, x, y, order, i, n, inner, depth.Keys, depthN.Keys, depth'.Keys);
    } else {
      assert Tried(depth.Keys, maze.width, maze.height, x, y, order[i]);
    }
  }

  /** Hanging a new cell on the tree shrinks the set of cells still outside it. */
  lemma Shrinks(width: int, height: int, k0: set<Position>, k1: set<Position>, n: Position)
    requires k0 <= k1 && n !in k1 && 0 <= n.x < width && 0 <= n.y < height
    ensures AllCells(width, height) - (k1 + {n}) < AllCells(width, height) - k0
  {
    assert n in AllCells(width, height) - k0;
  }

  /** Once every direction has been tried from (x, y), its in-grid
      neighbours are in s too. */
  lemma AllTried(s: set<Position>, inner: set<Position>, width: int, height: int, x: int, y: int, order: seq<Direction>)
    requires forall d :: d in order
    requires ClosedBeyond(s, inner, width, height) && TriedUpTo(s, width, height, x, y, order, |order|)
    ensures ClosedBeyond(s, inner - {Position(x, y)}, width, height)
  {
    forall d | 0 <= Neighbour(x, y, d).x < width && 0 <= Neighbour(x, y, d).y < height
      ensures Neighbour(x, y, d) in s
    {
      assert d in order;
      var k :| 0 <= k < |order| && order[k] == d;
      assert Tried(s, width, height, x, y, order[k]);
    }
    assert Closed(s, width, height, Position(x, y));
  }

  /** What the loop of generateMazeDFS keeps after carving towards the
      neighbour n in direction order[i]: the tree before the step (depth0),
      with n hung on it (depthN), and after the recursive call (depth1). */
  lemma AfterChild(width: int, height: int, x: int, y: int, order: seq<Direction>, i: int, n: Position,
                   depth: set<Position>, depth0: set<Position>, depthN: set<Position>, depth1: set<Position>)
    requires 0 <= i < |order| && n == Neighbour(x, y, order[i])
    requires depth <= depth0 && depthN == depth0 + {n} && depthN <= depth1
    requires ClosedBeyond(depth0, depth, width, height)
    requires TriedUpTo(depth0, width, height, x, y, order, i)
    requires ClosedBeyond(depth1, depthN - {n}, width, height)
    ensures depth <= depth1
    ensures ClosedBeyond(depth1, depth, width, height)
    ensures TriedUpTo(depth1, width, height, x, y, order, i + 1)
  {
    forall p | p in depth1 && p !in depth
      ensures Closed(depth1, width, height, p)
    {
      if p in depth0 {
        assert Closed(depth0, width, height, p);
      }
    }
    forall k | 0 <= k < i + 1
      ensures Tried(depth1, width, height, x, y, order[k])
    {
      if k < i {
        assert Tried(depth0, width, height, x, y, order[k]);
      }
    }
  }

  /** GenerateMaze(width, height): a maze with every wall, carved by
      generateMazeDFS from a random start; then a random edge (0 North,
      1 South, 2 East, 3 West) and a random cell along it are drawn, and the
      wall of that cell facing out of the grid is removed.  rand.Intn panics
      unless its argument is positive, hence the requirement on the size.
      The ghost results are the carved maze before the exit, its spanning
      tree, the exit wall and the number of draws made before the exit was
      drawn. */
  method GenerateMaze(width: int, height: int, rand: Rand)
      returns (maze: Maze, start: Position, ghost carved: Layout, ghost parent: map<Position, Direction>,
               ghost depth: map<Position, nat>, ghost exit: Position, ghost exitDir: Direction, ghost exitDraw: nat)
    requires 1 <= width && 1 <= height
    modifies rand
    ensures fresh(maze) && maze.Valid() && maze.width == width && maze.height == height
    ensures start == Position(rand.oracle(old(rand.draws)) % width, rand.oracle(old(rand.draws) + 1) % height)
    ensures carved.WellFormed() && carved.width == width && carved.height == height
    ensures Tree(carved, start, parent, depth) && depth.Keys == AllCells(width, height)
    ensures old(rand.draws) + 2 <= exitDraw && rand.draws == exitDraw + 2
    ensures ExitChoice(rand.oracle, exitDraw, width, height, exit, exitDir)
    ensures carved.IsValidPosition(exit.x, exit.y)
    ensures !carved.IsValidPosition(Across(exit.x, exit.y, exitDir).x, Across(exit.x, exit.y, exitDir).y)
    ensures maze.Snapshot() == carved.SetWall(exit.x, exit.y, exitDir, false)
    ensures OnlyExit(maze.Snapshot(), exit, exitDir)
    ensures forall p :: p in depth ==> Walk(maze.Snapshot(), p, RouteToRoot(carved, start, parent, depth, p)) == Some(start)
  {
    maze, start, parent, depth := CarveMaze(width, height, rand);
    carved := maze.Snapshot();
    exitDraw := rand.draws;
    var x, y, direction := DrawExit(width, height, rand);
    exit, exitDir := Position(x, y), direction;
    maze.RemoveWall(x, y, direction);
    OneExit(carved, x, y, direction);
    RoutesAfterRemoval(carved, start, parent, depth, x, y, direction);
  }

  /** The first half of GenerateMaze: NewMaze(width, height), an unvisited
      grid, a start drawn as startX := rand.Intn(width) and startY :=
      rand.Intn(height), and generateMazeDFS from there, which visits every
      cell and leaves a spanning tree rooted at the start. */
  method CarveMaze(width: int, height: int, rand: Rand)
      returns (maze: Maze, start: Position, ghost parent: map<Position, Direction>, ghost depth: map<Position, nat>)
    requires 1 <= width && 1 <= height
    modifies rand
    ensures fresh(maze) && maze.Valid() && maze.width == width && maze.height == height
    ensures start == Position(rand.oracle(old(rand.draws)) % width, rand.oracle(old(rand.draws) + 1) % height)
    ensures Tree(maze.Snapshot(), start, parent, depth) && depth.Keys == AllCells(width, height)
    ensures old(rand.draws) + 2 <= rand.draws
  {
    maze := new Maze(width, height);
    var visited := new bool[height, width]((_, _) => false);
    var startX := rand.Intn(width);
    var startY := rand.Intn(height);
    start := Position(startX, startY);
    RootAlone(width, height, start);
    parent, depth := GenerateMazeDFS(maze, visited, startX, startY, rand, start, map[], map[start := 0]);
    assert map[start := 0].Keys - {start} == {};
    ClosedIsAll(depth.Keys, width, height, start);
  }

  /** The exit that draws k and k + 1 select: edge := draw k % 4 picks the
      North, South, East or West edge (0, 1, 2, 3), and draw k + 1 picks the
      cell along it, modulo the width or the height. */
  predicate ExitChoice(oracle: nat -> nat, k: nat, width: int, height: int, exit: Position, d: Direction)
    requires 1 <= width && 1 <= height
  {
    var edge, along := oracle(k) % 4, oracle(k + 1);
    && d == [North, South, East, West][edge]
    && (edge == 0 ==> exit == Position(along % width, 0))
    && (edge == 1 ==> exit == Position(along % width, height - 1))
    && (edge == 2 ==> exit == Position(width - 1, along % height))
    && (edge == 3 ==> exit == Position(0, along % height))
  }

  /** The exit of GenerateMaze: edge := rand.Intn(4) picks the edge, then a
      second draw picks the cell along it; the wall of that cell facing out
      of the grid is the exit. */
  method DrawExit(width: int, height: int, rand: Rand) returns (x: int, y: int, direction: Direction)
    requires 1 <= width && 1 <= height
    modifies rand
    ensures ExitChoice(rand.oracle, old(rand.draws), width, height, Position(x, y), direction)
    ensures 0 <= x < width && 0 <= y < height
    ensures var n := Across(x, y, direction); !(0 <= n.x < width && 0 <= n.y < height)
    ensures rand.draws == old(rand.draws) + 2
  {
    var edge := rand.Intn(4);
    if edge == 0 {
      x := rand.Intn(width);
      y, direction := 0, North;
    } else if edge == 1 {
      x := rand.Intn(width);
      y, direction := height - 1, South;
    } else if edge == 2 {
      y := rand.Intn(height);
      x, direction := width - 1, East;
    } else {
      y := rand.Intn(height);
      x, direction := 0, West;
    }
  }

  // ---------------------------------------------------------------------------
  // What the generated maze is
  // ---------------------------------------------------------------------------

  /** Walking from p along route through open walls: the cell reached, or
      None when a wall is in the way. */
  function Walk(l: Layout, p: Position, route: seq<Direction>): Option<Position>
    requires l.WellFormed()
    decreases |route|
  {
    if route == [] then Some(p)
    else if l.HasWall(p.x, p.y, route[0]) then None
    else Walk(l, Neighbour(p.x, p.y, route[0]), route[1..])
  }

  /** The way from a tree cell back to the root: follow parent links.  It
      crosses only open walls and takes depth[p] steps, so every cell of the
      tree is reachable from the root. */
  ghost function RouteToRoot(l: Layout, root: Position, parent: map<Position, Direction>,
                             depth: map<Position, nat>, p: Position): (route: seq<Direction>)
    requires l.WellFormed() && Tree(l, root, parent, depth) && p in depth
    ensures |route| == depth[p]
    ensures Walk(l, p, route) == Some(root)
    decreases depth[p]
  {
    if p == root then []
    else
      var d := parent[p];
      var rest := RouteToRoot(l, root, parent, depth, Neighbour(p.x, p.y, d));
      assert ([d] + rest)[1..] == rest;
      [d] + rest
  }

  /** Removing a wall keeps every route to the root open. */
  lemma RoutesAfterRemoval(l: Layout, root: Position, parent: map<Position, Direction>, depth: map<Position, nat>,
                           x: int, y: int, d: Direction)
    requires l.WellFormed() && Tree(l, root, parent, depth)
    ensures forall p :: p in depth ==> Walk(l.SetWall(x, y, d, false), p, RouteToRoot(l, root, parent, depth, p)) == Some(root)
  {
    forall p | p in depth
      ensures Walk(l.SetWall(x, y, d, false), p, RouteToRoot(l, root, parent, depth, p)) == Some(root)
    {
      WalkAfterRemoval(l, p, RouteToRoot(l, root, parent, depth, p), x, y, d);
    }
  }

  /** Removing a wall never blocks a walk that was open. */
  lemma {:induction false} WalkAfterRemoval(l: Layout, p: Position, route: seq<Direction>, x: int, y: int, d: Direction)
    requires l.WellFormed()
    ensures Walk(l, p, route).Some? ==> Walk(l.SetWall(x, y, d, false), p, route) == Walk(l, p, route)
    decreases |route|
  {
    if route != [] && !l.HasWall(p.x, p.y, route[0]) {
      SetWallEffect(l, x, y, d, false);
      WalkAfterRemoval(l, Neighbour(p.x, p.y, route[0]), route[1..], x, y, d);
    }
  }

  /** The boundary of l is closed but for the wall on side d of p. */
  ghost predicate OnlyExit(l: Layout, p: Position, d: Direction)
    requires l.WellFormed()
  {
    forall x, y, e {:trigger Across(x, y, e)} ::
      l.IsValidPosition(x, y) && !l.IsValidPosition(Across(x, y, e).x, Across(x, y, e).y) ==>
        (l.HasWall(x, y, e) <==> !(x == p.x && y == p.y && e == d))
  }

  /** Opening one wall that faces out of an intact boundary gives a maze
      with exactly that exit, and no wall inside the grid changes. */
  lemma OneExit(l: Layout, x: int, y: int, d: Direction)
    requires l.WellFormed() && BoundaryIntact(l)
    requires l.IsValidPosition(x, y) && !l.IsValidPosition(Across(x, y, d).x, Across(x, y, d).y)
    ensures OnlyExit(l.SetWall(x, y, d, false), Position(x, y), d)
    ensures forall x', y', e {:trigger Across(x', y', e)} ::
              l.IsValidPosition(x', y') && l.IsValidPosition(Across(x', y', e).x, Across(x', y', e).y) ==>
                l.SetWall(x, y, d, false).HasWall(x', y', e) == l.HasWall(x', y', e)
  {
    SetWallEffect(l, x, y, d, false);
  }

  /** The cells (0, y) .. (w - 1, y) of one row. */
  function RowCells(w: int, y: int): (r: set<Position>)
    ensures forall p {:trigger p in r} :: p in r <==> 0 <= p.x < w && p.y == y
  {
    set x | 0 <= x < w :: Position(x, y)
  }

  lemma {:induction false} RowCellsCount(w: nat, y: int)
    ensures |RowCells(w, y)| == w
  {
    if w > 0 {
      var shorter := RowCells(w - 1, y);
      RowCellsCount(w - 1, y);
      assert Position(w - 1, y) !in shorter;
      assert RowCells(w, y) == shorter + {Position(w - 1, y)};
    } else {
      assert RowCells(w, y) == {};
    }
  }

  /** A width x height grid has width * height cells. */
  lemma {:induction false} AllCellsCount(width: nat, height: nat)
    ensures |AllCells(width, height)| == width * height
  {
    if height > 0 {
      var above, row := AllCells(width, height - 1), RowCells(width, height - 1);
      AllCellsCount(width, height - 1);
      RowCellsCount(width, height - 1);
      assert AllCells(width, height) == above + row;
      assert above * row == {};
      assert |above + row| == |above| + |row|;
      assert width * height == width * (height - 1) + width;
    } else {
      assert AllCells(width, 0) == {};
    }
  }

  /** A spanning tree of the grid hangs every cell but the root from a
      parent: width * height - 1 passages, the edges of a perfect maze. */
  lemma TreeEdges(l: Layout, root: Position, parent: map<Position, Direction>, depth: map<Position, nat>)
    requires l.WellFormed() && l.width >= 0 && l.height >= 0
    requires Tree(l, root, parent, depth) && depth.Keys == AllCells(l.width, l.height)
    ensures parent.Keys == AllCells(l.width, l.height) - {root}
    ensures |parent| == l.width * l.height - 1
  {
    AllCellsCount(l.width, l.height);
    assert parent.Keys == AllCells(l.width, l.height) - {root};
  }

  /** The passages of the tree are its parent links: every link crosses an
      open wall between two cells of the grid, and every open wall between
      two cells of the grid is the link of exactly one of its two cells. */
  lemma TreeWalls(l: Layout, root: Position, parent: map<Position, Direction>, depth: map<Position, nat>)
    requires l.WellFormed() && Tree(l, root, parent, depth)
    ensures forall p :: p in parent ==>
              && l.IsValidPosition(Across(p.x, p.y, parent[p]).x, Across(p.x, p.y, parent[p]).y)
              && !l.HasWall(p.x, p.y, parent[p])
    ensures forall x, y, d {:trigger Across(x, y, d)} ::
              l.IsValidPosition(x, y) && l.IsValidPosition(Across(x, y, d).x, Across(x, y, d).y) &&
              !l.HasWall(x, y, d) ==>
                ((Position(x, y) in parent && parent[Position(x, y)] == d) !=
                 (Across(x, y, d) in parent && parent[Across(x, y, d)] == d.Opposite()))
  {
    forall p | p in parent
      ensures l.IsValidPosition(Across(p.x, p.y, parent[p]).x, Across(p.x, p.y, parent[p]).y)
      ensures !l.HasWall(p.x, p.y, parent[p])
    {
      assert Linked(l, depth, p, parent[p]);
    }
    forall x, y, d {:trigger Across(x, y, d)} |
      l.IsValidPosition(x, y) && l.IsValidPosition(Across(x, y, d).x, Across(x, y, d).y) && !l.HasWall(x, y, d)
      ensures (Position(x, y) in parent && parent[Position(x, y)] == d) !=
              (Across(x, y, d) in parent && parent[Across(x, y, d)] == d.Opposite())
    {
      NeighbourOfNeighbour(x, y, d);
    }
  }
}
