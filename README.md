# Maze engine of trijam-304, in Dafny

This project models the maze engine of a small Go game (`game/maze.go`) and
the two screen state machines that use it (`game/screen_maze.go` and
`game/screen_title.go`), and proves properties of the model.

The engine is a rectangular grid of cells. Each cell has four wall flags:
North, East, South and West. The mutators `RemoveWall` and `AddWall` keep
both sides of a shared edge in agreement. `String` draws the maze as ASCII
art and `ParseMaze` reads that art back. `GenerateMaze` carves a perfect
maze with a randomised depth-first "recursive backtracker" and then opens
one wall of the boundary as the exit.

Files and modules:

- `grid.dfy`, module `Grid`. This holds the directions, the cells, and
  `Layout`, the value of a maze (width, height and rows of cells). It also
  holds the pure wall update `SetWall` shared by `RemoveWall` and `AddWall`,
  and the wall-symmetry invariant.
- `text.dfy`, module `Text`. `Encode` is the text `String` writes. `Decode`
  is what `ParseMaze` returns: `strings.TrimSpace`, `strings.Split`, Go's
  truncating division, the three checks, and the `RemoveWall` calls in the
  order the code makes them. The module proves the shape of the encoding,
  the per-flag meaning of a parsed maze, and the round trips.
- `maze.dfy`, module `Mazes`. Class `Maze` holds a `grid` field that the
  methods reassign, as Go writes `Grid[y][x]` in place. The methods are
  `NewMaze` (the constructor), `IsValidPosition`, `HasWall`, `RemoveWall`,
  `AddWall`, `String` and `ParseMaze`. Each is proved against the `Grid` and
  `Text` functions.
- `generator.dfy`, module `Generator`. It holds `shuffleDirections` (in
  place on an array), the recursive `generateMazeDFS` (over a `visited`
  `array2`) and `GenerateMaze`. A ghost parent map and depth map record the
  spanning tree that the carving builds. One turn of each loop is a method of
  its own: `SwapWithDrawn` for the shuffle loop and `CarveTowards` for the
  loop over the four directions. `DrawExit` is the `switch edge` of
  `GenerateMaze`.
- `scenarios.dfy`, module `Scenarios`. These are the literal cases of
  `game/maze_test.go` and the two small inputs that `ParseMaze` rejects.
- `screen_maze.dfy`, module `MazeScreens`. It holds `MazeScreen`, its
  constructor, `NewMazeScreen` with the fixed 3×3 layout, and `Update`. The
  value function `Step` specifies `Update`.
- `screen_title.dfy`, module `TitleScreens`. It holds `TitleScreen`,
  `NewTitleScreen`, `Update`, and the `PlayerSpeed` and `MazeSize` tables.
  The value function `MenuStep` specifies `Update`.

Modelling choices:

- Randomness. Draw `k` of `rand.Intn(n)` is `oracle(k) % n` for an arbitrary
  `oracle: nat -> nat` held by class `Rand`. This gives each draw a value in
  `[0, n)`, in the order the code draws. Uniformity is not modelled.
- Input polling. `IsKeyJustPressed(KeyEscape)`, `IsKeyJustPressed(KeyEnter)`
  and `isButtonJustReleased` become boolean parameters of `Update`.
- Tick values. The rotation interval in ticks becomes an integer parameter
  `threshold`. `tick.TPS` becomes an integer parameter `tps`.
- Enumerations. `MazeDirection`, `PlayerSpeed` and `MazeSize` are Dafny
  datatypes with exactly the named constants. Go's `default:` branches
  (`Opposite` returning `d`, `Dimensions` returning 10×10, `String` returning
  "Unknown") apply only to out-of-range integers. Those cannot arise here.
- Errors. Errors of `ParseMaze` are the variants of `ParseError`. The
  message text is not modelled. The code reports two different length
  errors: "invalid line length" for a content line and "invalid wall line
  length" for a wall line. The model keeps both, as `InvalidLineLength` and
  `InvalidWallLineLength`.

Where the code differs from the usual account of this engine, the model
follows the code:

- `String` never reads the North walls of row 0 or the West walls of column
  0. It always draws the top border and a leading `|`. So, for a symmetric
  maze of at least 1×1, `ParseMaze(String(m)) == m` holds only when those
  walls are present (`Text.RoundTrip`). For such a maze every other wall
  comes back, and those boundary walls come back closed
  (`Text.DecodeEncode`). `String` after `ParseMaze` after `String` is then
  the same text as `String` (`Text.EncodeDecodeEncode`). A 0-wide or 0-high
  maze is accepted by `NewMaze`, but its text does not parse back: its top
  line is too short or there are too few lines.
- `GenerateMaze` returns only the maze and the start position. It returns
  no exit cell and no exit direction. The exit is therefore a ghost result
  of the model.

## Model

| member | source | states |
|---|---|---|
| `Grid.Direction.Opposite` | game/maze.go:35-49 | The opposite differs from the direction and is two steps further round the N, E, S, W cycle. |
| `Grid.OppositeIsInvolution` | game/maze.go:36-49 | Taking the opposite twice gives the direction back. |
| `Grid.FromIndex` | game/maze.go:12-17 | `MazeDirection(i)` for i in [0,4) is the direction whose iota value is i. |
| `Grid.NeighbourStep` | game/maze.go:111-122 | One step changes exactly one coordinate by one: North decreases y, South increases y, East increases x, West decreases x. |
| `Grid.NeighbourOfNeighbour` | game/maze.go:111-122 | The neighbour arithmetic moves off the cell, and stepping back in the opposite direction returns to it. |
| `Grid.Cell.SetWall` | game/maze.go:108 | Writing `Walls[d]` sets flag d and leaves the other three flags alone. |
| `Grid.SetFlagEffect` | game/maze.go:107-108 | One in-bounds flag write changes that flag and no other flag of the grid. |
| `Grid.Layout.SetWall` | game/maze.go:102-155 | The shared body of RemoveWall/AddWall keeps the size, and out of bounds it changes nothing. |
| `Grid.SetWallEffect` | game/maze.go:102-155 | In bounds, exactly flag d of (x,y) and, if the neighbour is in bounds, the neighbour's opposite flag become b; every other flag is unchanged. |
| `Grid.SetWallKeepsSymmetry` | game/maze.go:100-155 | RemoveWall and AddWall keep a symmetric grid symmetric. |
| `Grid.Full` | game/maze.go:65-85 | NewMaze's value has Height rows of Width cells, and every query reports a wall. |
| `Grid.FullIsSymmetric` | game/maze.go:74-82 | The fully walled grid satisfies the wall-symmetry invariant. |
| `Grid.OutOfBoundsIsWall` | game/maze.go:92-98 | HasWall reports a wall for any out-of-bounds coordinate and any direction. |
| `Mazes.Maze.constructor` | game/maze.go:67-85 | NewMaze's nested loops leave Height rows of Width cells, each with all four walls. |
| `Mazes.Maze.IsValidPosition` | game/maze.go:88-90 | The predicate holds iff 0 ≤ x < Width and 0 ≤ y < Height. |
| `Mazes.Maze.HasWall` | game/maze.go:92-98 | The result is true out of bounds and the cell's own flag otherwise. |
| `Mazes.Maze.RemoveWall` | game/maze.go:100-127 | The new grid is the old one with both sides of the edge opened (`SetWall` with false); out of bounds it is unchanged. |
| `Mazes.Maze.AddWall` | game/maze.go:129-155 | The new grid is the old one with both sides of the edge closed (`SetWall` with true); out of bounds it is unchanged. |
| `Mazes.Maze.String` | game/maze.go:157-197 | The builder loop produces exactly `Encode` of the maze. |
| `Mazes.Maze.WriteContentLine` | game/maze.go:169-181 | One content line is appended: a bar, then two spaces and the East glyph per cell, then a newline. |
| `Mazes.Maze.WriteWallLine` | game/maze.go:183-193 | One wall line is appended: `+` and the South glyph per cell, then `+` and a newline. |
| `Mazes.RemoveContentOpenings` | game/maze.go:224-236 | The maze becomes the old one after the West (column 0) and East removals that the content line asks for, in order. |
| `Mazes.RemoveSouthOpenings` | game/maze.go:245-250 | The maze becomes the old one after the South removals that the wall line asks for, in order. |
| `Mazes.RemoveNorthOpenings` | game/maze.go:253-261 | The maze becomes the old one after the row-0 North removals that the top line asks for, in order. |
| `Mazes.ParseMaze` | game/maze.go:199-265 | The method succeeds iff `Decode` does, returns the same error, and on success returns a fresh maze whose value is `Decode`'s. |
| `Mazes.ParseRows` | game/maze.go:216-264 | The method fails iff some row has a line of the wrong length, reports the first such row, and otherwise returns the parsed maze. |
| `Mazes.ParseRow` | game/maze.go:217-262 | The content line is checked before the wall line; on success the row's removals are applied in the code's order. |
| `Text.TopBorderAt` | game/maze.go:161-165 | The top line has 3W+1 characters: `+--` per column, then `+`. |
| `Text.ContentLineAt` | game/maze.go:169-181 | A content line has 3W+1 characters; it starts with a bar, and at 3x+3 it has a bar iff (x,y) has its East wall. |
| `Text.WallLineAt` | game/maze.go:183-193 | A wall line has 3W+1 characters, with `+` at 3x, and `--` at 3x+1..3x+2 iff (x,y) has its South wall, else two spaces. |
| `Text.LinesAt` | game/maze.go:167-194 | Lines 2y+1 and 2y+2 of the output are the content line and wall line of row y. |
| `Text.LinesShape` | game/maze.go:158-197 | String writes 2H+1 lines of 3W+1 characters each, with no newline inside a line, starting with the top border. |
| `Text.TrimLeft` | game/maze.go:201 | The result is a suffix of the input that does not start with white space. |
| `Text.TrimRight` | game/maze.go:201 | The result is a prefix of the input that does not end with white space. |
| `Text.Split` | game/maze.go:201 | `strings.Split` yields at least one piece, and no piece holds the separator. |
| `Text.SplitJoin` | game/maze.go:201 | Splitting pieces joined by a separator they do not contain gives the pieces back. |
| `Text.JoinSplit` | game/maze.go:201 | Joining the pieces of a split restores the text. |
| `Text.EncodedLines` | game/maze.go:196-201 | Trimming and splitting String's output gives exactly the lines String wrote. |
| `Text.GoQuotient` | game/maze.go:207 | Go's `/` truncates toward zero: floor division for a ≥ 0, and a non-positive quotient for a < 0. |
| `Text.CheckRows` | game/maze.go:217-243 | The result is None iff every row's two lines have length 3W+1; otherwise it names the first bad row, with InvalidLineLength iff its content line is the bad one. |
| `Text.DecodeOutcome` | game/maze.go:200-243 | TooFewLines iff fewer than 3 lines; InvalidDimensions iff a derived size is below 1; success iff every row has the right lengths, with the derived size. |
| `Text.ApplyRemovals` | game/maze.go:214-262 | RemoveWall calls made in order keep the maze well formed and its size unchanged. |
| `Text.ApplyRemovalsAppend` | game/maze.go:214-262 | Removals made one sequence after another equal the removals of the concatenation. |
| `Text.RemovalsEffect` | game/maze.go:214-262 | After a sequence of removals a flag stays set iff it was set and neither side of its edge was asked to open. |
| `Text.RemovalsKeepSymmetry` | game/maze.go:214-262 | Parsing only opens edges, so the symmetric starting maze stays symmetric. |
| `Text.InRowRemovals` | game/maze.go:224-261 | A row asks for removal o iff o is in that row and its glyph shows an opening (West only at column 0, North only in row 0). |
| `Text.GlyphWallByDirection` | game/maze.go:224-261 | Per direction, the parsed flag is read off the East char, the South glyph, the leading bar or the left neighbour's East char, and the top line or wall line above. |
| `Text.ParsedWalls` | game/maze.go:214-262 | Every flag of the parsed maze equals the glyph formula. |
| `Text.DecodeGlyphs` | game/maze.go:200-264 | A successful parse is symmetric, has the derived size (both ≥ 1), and has every flag given by the glyphs. |
| `Text.DecodeEncode` | game/maze.go:158-265 | For a symmetric maze of at least 1×1, ParseMaze(String(m)) succeeds with the same size and every wall of m, except that row-0 North and column-0 West come back closed. |
| `Text.RoundTrip` | game/maze.go:158-265 | ParseMaze(String(m)) == m for a symmetric maze whose row-0 North and column-0 West walls are present. |
| `Text.EncodeIgnoresUnencoded` | game/maze.go:161-170 | Mazes that differ only in row-0 North or column-0 West walls have the same String. |
| `Text.EncodeDecodeEncode` | game/maze.go:158-265 | String(ParseMaze(String(m))) is byte-identical to String(m) for every symmetric maze of at least 1×1. |
| `Scenarios.EnclosedMazeString` | game/maze_test.go:15-25 | NewMaze(3,3).String() is the fully walled 7-line literal. |
| `Scenarios.OpenedByRemovals` | game/maze_test.go:28-32 | The four RemoveWall calls of the second test produce the stated 2×2 grid. |
| `Scenarios.RemovedWallsString` | game/maze_test.go:27-40 | NewMaze(2,2), the four RemoveWall calls, then String give the expected 5-line literal. |
| `Scenarios.EmptyInputRejected` | game/maze.go:201-204 | ParseMaze("") fails with TooFewLines. |
| `Scenarios.BadLineLengthRejected` | game/maze.go:219-222 | ParseMaze of the three-line text whose middle line has 7 characters instead of 4 fails with InvalidLineLength at row 0. |
| `Generator.Rand.Intn` | game/maze.go:357 | Each draw lies in [0,n) and consumes one value of the oracle. |
| `Generator.Swap` | game/maze.go:358 | The elements at i and j are exchanged and every other element is kept. |
| `Generator.SwapPermutes` | game/maze.go:358 | A swap leaves a permutation. |
| `Generator.ShuffledPermutes` | game/maze.go:355-360 | The shuffle keeps the length and the multiset of elements. |
| `Generator.ShuffledDirections` | game/maze.go:326-327 | A permutation of the four directions has length 4 and holds each direction. |
| `Generator.ShuffleDirections` | game/maze.go:354-360 | The array becomes the Fisher–Yates shuffle of its old contents under the draws made, and exactly len−1 draws are made. |
| `Generator.SwapWithDrawn` | game/maze.go:356-358 | One turn of the shuffle loop swaps element i with element oracle(k) mod (i+1), uses one draw, and leaves exactly the steps below i of the same shuffle to do. |
| `Generator.ShuffledOrder` | game/maze.go:326-327 | The order tried is a permutation of {N,E,S,W}, with 3 draws made. |
| `Generator.RootAlone` | game/maze.go:275-288 | The fully walled maze with only the start visited is a one-cell tree. |
| `Generator.Attach` | game/maze.go:345-349 | Removing the wall toward an in-bounds unvisited neighbour and hanging that neighbour from the current cell keeps the tree invariant. |
| `Generator.Shrinks` | game/maze.go:345-349 | Each recursive call has strictly fewer unvisited cells, so the recursion terminates. |
| `Generator.AllTried` | game/maze.go:330-351 | Once all four directions are tried, every in-grid neighbour of the cell is visited. |
| `Generator.AfterChild` | game/maze.go:345-350 | After carving toward one neighbour, the visited set keeps its closure and that direction counts as tried. |
| `Generator.GenerateMazeDFS` | game/maze.go:321-352 | The maze stays a tree, only carving into unvisited cells; visited equals the tree's cells; on return every cell it visited has all in-grid neighbours visited. |
| `Generator.CarveTowards` | game/maze.go:330-350 | One turn of the direction loop: if the neighbour is inside the grid and unvisited, the wall is removed and the recursion carves from it; either way the tree invariant holds afterwards, visited still equals the tree's cells, and the direction counts as tried. |
| `Generator.ClosedIsAll` | game/maze.go:322-351 | A visited set that holds the start and is closed under in-grid neighbours is the whole grid: every cell is visited. |
| `Generator.TreeEdges` | game/maze.go:322-352 | A tree covering the grid hangs every cell but the start from a parent: W·H−1 parent links. |
| `Generator.TreeWalls` | game/maze.go:344-349 | Each parent link crosses an open wall between two grid cells. Each open wall between two grid cells is the link of exactly one of its two cells. So the open interior walls are the parent links, one to one: W·H−1 of them in a generated maze. |
| `Generator.AllCellsCount` | game/maze.go:278-281 | The grid has W·H cells. |
| `Generator.RouteToRoot` | game/maze.go:322-352 | Every tree cell reaches the start through open walls, in depth-many steps. |
| `Generator.WalkAfterRemoval` | game/maze.go:316 | Opening the exit wall does not block any walk that was open. |
| `Generator.RoutesAfterRemoval` | game/maze.go:316 | After any wall is removed, every tree cell still reaches the start along its route. |
| `Generator.OneExit` | game/maze.go:290-316 | Opening one outward wall of an intact boundary gives exactly that exit and changes no interior wall. |
| `Generator.DrawExit` | game/maze.go:292-313 | `ExitChoice` at the first draw k: draw k mod 4 picks the North, South, East or West edge (0, 1, 2, 3), and draw k+1, mod W or H, picks the cell along that edge. The chosen cell is inside the grid, and its wall on that side faces out of the grid. Exactly two draws are made. |
| `Generator.CarveMaze` | game/maze.go:275-288 | The start is the first two draws mod W and mod H. After the DFS from it, the fresh maze is a spanning tree of all W·H cells rooted at the start. |
| `Generator.GenerateMaze` | game/maze.go:272-319 | The start is the first two draws mod W and mod H. The carved maze is a spanning tree of all W·H cells. Exactly one outward boundary wall is then opened: the one `ExitChoice` selects from the two draws that follow the carving, which are the last two draws made. Every cell still reaches the start. |
| `MazeScreens.Turn` | game/screen_maze.go:65 | The direction after a turn is `(int(d)+1) % 4`. |
| `MazeScreens.TurnCycle` | game/screen_maze.go:63-67 | Turns go N→E→S→W→N, and four turns return to the start. |
| `MazeScreens.StepFrozen` | game/screen_maze.go:54-60 | Escape, or a game already won, leaves every field unchanged. |
| `MazeScreens.StepRotation` | game/screen_maze.go:62-67 | The counter increments; on reaching the threshold the player turns and the counter resets to 0. |
| `MazeScreens.StepWithoutEnter` | game/screen_maze.go:69-98 | Without Enter the position, win flag and exit direction are unchanged. |
| `MazeScreens.StepWin` | game/screen_maze.go:83-89 | The game becomes won iff Enter is pressed facing an open wall whose far side is out of bounds; the exit direction is then the facing direction and the player does not move. |
| `MazeScreens.StepMove` | game/screen_maze.go:91-97 | The player moves exactly one cell in the facing direction iff Enter is pressed, there is no wall, and the next cell is in bounds; otherwise the position is kept. |
| `MazeScreens.StepIsWalk` | game/screen_maze.go:91-97 | Any change of position is a one-step walk through an open wall. |
| `MazeScreens.StepStaysInside` | game/screen_maze.go:91-97 | An in-bounds player stays in bounds. |
| `MazeScreens.MazeScreen.constructor` | game/screen_maze.go:43-50 | The literal places the player at (0,0) facing North, with counter 0, hasWon false and exitDirection at its zero value. |
| `MazeScreens.MazeScreen.Update` | game/screen_maze.go:53-101 | The new fields are `Step` of the old ones, on the screen's maze, which is unchanged. |
| `MazeScreens.NewMazeScreen` | game/screen_maze.go:31-51 | The constructor succeeds iff the layout parses, passes any parse error on, and otherwise holds the parsed maze in the initial state. |
| `MazeScreens.ScreenEncoding` | game/screen_maze.go:32-38 | String of the screen's maze is the layout literal plus a final newline. |
| `MazeScreens.ScreenLayoutSymmetric` | game/screen_maze.go:32-38 | The screen's maze satisfies the wall-symmetry invariant. |
| `MazeScreens.ScreenRoundTrip` | game/screen_maze.go:32-39 | The screen's maze survives String then ParseMaze. |
| `MazeScreens.DecodeWithoutFinalNewline` | game/maze.go:201 | ParseMaze ignores one trailing newline after text that starts and ends with a visible character. |
| `MazeScreens.ScreenTextDecodes` | game/screen_maze.go:32-42 | The fixed layout parses successfully, to the stated 3×3 grid. |
| `MazeScreens.ScreenExit` | game/screen_maze.go:32-38 | The only open boundary wall of the layout is East of (2,0). |
| `MazeScreens.ScreenSolvable` | game/screen_maze.go:32-38 | From (0,0) the route S,E,E,N,E crosses only open walls and leaves the grid. |
| `MazeScreens.ScreenWinsOnlyEast` | game/screen_maze.go:83-89 | On the fixed layout, an in-bounds player can win only from (2,0), exiting East. |
| `TitleScreens.PlayerSpeed.Next` | game/screen_title.go:106 | A speed press gives `(int(s)+1) % 3`. |
| `TitleScreens.MazeSize.Next` | game/screen_title.go:108 | A size press gives `(int(s)+1) % 3`. |
| `TitleScreens.FromSpeedIndex` | game/screen_title.go:13-17 | `PlayerSpeed(i)` for i in [0,3) is the speed whose iota value is i. |
| `TitleScreens.FromSizeIndex` | game/screen_title.go:47-51 | `MazeSize(i)` for i in [0,3) is the size whose iota value is i. |
| `TitleScreens.PlayerSpeed.String` | game/screen_title.go:19-30 | The speeds of iota value 0, 1, 2 are named "Low", "Medium", "High". |
| `TitleScreens.MazeSize.String` | game/screen_title.go:53-64 | The sizes of iota value 0, 1, 2 are named "Small", "Medium", "Big". |
| `TitleScreens.MazeSize.Dimensions` | game/screen_title.go:66-77 | Every size is square; Small, Medium and Big are 3×3, 10×10 and 20×20. |
| `TitleScreens.NamesDistinct` | game/screen_title.go:19-64 | The String tables give distinct names, and none is "Unknown". |
| `TitleScreens.DimensionsUsable` | game/screen_title.go:66-77 | Every size is square with sides ≥ 1, as GenerateMaze needs, and Small < Medium < Big. |
| `TitleScreens.SettingsCycle` | game/screen_title.go:103-108 | Three presses bring a setting back, and one press changes it. |
| `TitleScreens.MenuRotation` | game/screen_title.go:98-102 | The counter increments; on reaching TPS the selection becomes (sel+1) mod 4 and the counter resets, so the selection stays in [0,4). |
| `TitleScreens.Selected` | game/screen_title.go:104 | The option a press acts on is one of the four menu entries. |
| `TitleScreens.MenuWithoutRelease` | game/screen_title.go:97-122 | Without a release there is no transition and the settings are unchanged. |
| `TitleScreens.MenuSettings` | game/screen_title.go:103-108 | A release on "Player Speed" or "Maze Size" cycles that setting, keeps the other, and returns no transition. |
| `TitleScreens.MenuTransitions` | game/screen_title.go:109-121 | "Start" returns a transition to ScreenMaze with the current speed and size; "About" returns a transition to ScreenAbout; only these two return a transition. |
| `TitleScreens.TitleScreen.constructor` | game/screen_title.go:87-95 | The initial state is option 0, speed Medium, size Medium, counter 0, with the four options. |
| `TitleScreens.TitleScreen.Update` | game/screen_title.go:97-122 | The new fields and the returned transition are `MenuStep` of the old fields; the selection stays a valid index. |

## Left out

- The `Draw` methods of all screens and the whole of `game/screen_about.go`
  are not modelled. They only render with ebiten, using float32 geometry.
- `main.go`, `game/fx.go`, `game/game.go` and `game/screens.go` are not part
  of this model. They hold windowing bootstrap, dependency injection, a
  stub, and an interface declaration.
- `math/rand`'s generator is not modelled. Each `rand.Intn(n)` is an
  arbitrary oracle value reduced mod n, so uniformity and distribution are
  not modelled. Reproducibility from a fixed seed is implicit: everything
  is a function of the oracle.
- `PlayerSpeed.RotationsPerSecond` is not modelled, and neither is the float
  conversion `int(rotationInterval.Seconds()*float64(tick.TPS))`. Both give
  floating-point results; `MazeScreen.Update` takes the integer threshold
  they produce as a parameter.
- `isButtonJustReleased` and the keyboard queries are not part of this
  model. They become boolean inputs.
- `MazeDirection.String` is not modelled. It is a name table that the
  engine never uses.
- `Text.TrimLeft` and `Text.TrimRight` (together `strings.TrimSpace`) remove
  only the six ASCII white-space characters. Go also trims the Unicode
  spaces, such as U+0085 and U+00A0. The model does not capture those.
- Every `char` stands for one byte of a Go string. UTF-8 decoding is not
  modelled. The maze text is ASCII, so nothing the engine writes depends on
  it.
- The `fmt.Errorf` message texts are not modelled; only the error variants
  are.
- `ScreenType` is declared in `game/screens.go`, which is not part of this
  model; the datatype `TitleScreens.ScreenType` copies its three constants.
  `ScreenTransition` is declared in none of the source files here. Its
  fields are inferred from the literals at `game/screen_title.go:110-118`.
  The About transition leaves `PlayerSpeed` and `MazeSize` out, so the
  model gives them Go's zero values, `SpeedLow` and `SizeSmall`.
- Go's `int` is 64 bits wide. The model uses unbounded integers.
  Coordinates, counters and sizes here stay far from overflow, so no wrap-around
  is modelled. `tickCounter` and `ticksSinceLastRotation` could wrap only
  after 2^63 ticks.
- Go panics when `NewMaze` gets a negative size and when `GenerateMaze`
  calls `rand.Intn` with a non-positive argument. These become `requires`
  clauses: sizes ≥ 0 for the constructor, and ≥ 1 for `GenerateMaze`.
