# Maze generation and solving

A model of the maze core of `functions.js`: a grid of cells with four walls
each, carved into a perfect maze by randomized depth-first search
(`generateMaze`), solved by breadth-first search from the top-left cell to
the bottom-right cell (`solveMaze`), and turned into the pixel points the
path is drawn through (`pathToPoints`). The file's colour-naming helper
(`closestColor`) is modelled as well.

- `grid.dfy` (module `MazeGrid`): cells, walls, directions, the grid as rows
  of cells indexed `grid[y][x]`, the fresh grid, and walks through open walls.
- `generator.dfy` (module `MazeGenerator`): the neighbour scan, wall removal
  and the carving loop. `GenerateMaze` is a method with the source's loop:
  it marks, pushes, carves and pops exactly as the source does, and also
  returns the list of passages it carved. The proof shows that every cell
  gets visited, that the carved passages form a spanning tree of
  `cols * rows - 1` edges rooted at `(0, 0)`, and that the open walls are
  exactly the two sides of those passages. So walls are symmetric, no border
  wall is ever opened, and every cell can be reached from `(0, 0)`.
  The loop stops as soon as the stack empties, so `(0, 0)` is never looked at
  again after the last pop. The proof that nothing is missed therefore rests
  on the grid without its corner `(0, 0)` being connected
  (`SpreadEverywhere`).
- `solver.dfy` (module `MazeSolver`): the moves out of a cell in the order
  top, right, bottom, left, and `SolveMaze`, a method with the source's queue
  of paths and its visited set. Its contract: a returned path is a route
  from the entry to the exit through open walls with no repeated cell, and
  no route is shorter. The result is `None` exactly when no route exists.
  `GeneratedMazeIsSolvable` joins the two halves: every generated maze meets
  the solver's precondition and has a route.
- `geometry.dfy` (module `PathGeometry`): one point per path cell. Each point
  is equidistant from the edges of its cell's block, it lies inside the block
  when the cell sizes are positive, and consecutive points are one cell apart
  along one axis.
- `color.dfy` (module `ColorMatch`): the loop that keeps the nearest entry of
  a colour table. It returns the first entry at minimal squared distance, or
  `"other"` for an empty table.

`Math.random` is a parameter: `random(k)` is the value of the k-th call, in
`[0, 1)`, and the index chosen among `n` neighbours is `floor(random(k) * n)`.

## Model

| member | source | states |
|---|---|---|
| MazeGrid.CreateGrid | functions.js:30-36 | the fresh grid has `rows` rows of `cols` cells, the cell at `grid[y][x]` records coordinates `(x, y)`, is unvisited and has all four walls |
| MazeGrid.AllCellsCount | functions.js:30-36 | a `cols` by `rows` grid has exactly `cols * rows` cell positions |
| MazeGenerator.UnvisitedNeighborsSpec | functions.js:38-42 | the scan lists exactly the in-grid, axis-adjacent, unvisited cells, in the order up, left, right, down; positions outside the grid are dropped |
| MazeGenerator.Pick | functions.js:59 | `floor(draw * n)` for a draw in `[0, 1)` is a valid index among `n` candidates |
| MazeGenerator.ClearPairSpec | functions.js:47-50 | clearing one side of each of two cells opens exactly those two sides and keeps the shape, coordinates and visited flags |
| MazeGenerator.RemoveWallSpec | functions.js:44-51 | between adjacent cells `a` and `b`, removal opens exactly `a`'s side facing `b` and `b`'s side facing `a`; nothing else changes |
| MazeGenerator.SpanningTreeSize | functions.js:55-64 | a tree of passages reaching every cell has `cols * rows - 1` passages |
| MazeGenerator.NodesCount | functions.js:58-62 | each carve reaches one new cell, so `n` passages reach `n + 1` cells |
| MazeGenerator.PassagesAreSymmetric | functions.js:44-51 | open walls that are the two sides of passages are symmetric between neighbours, and none faces outside the grid |
| MazeGenerator.TreeReaches | functions.js:58-62 | every cell reached by the carve can be walked to from `(0, 0)` through open walls |
| MazeGenerator.SpanningTreeConnects | functions.js:55-64 | in a grid whose open walls are a spanning tree's passages, every cell is reachable from `(0, 0)` |
| MazeGenerator.SingleCellStaysClosed | functions.js:55-64 | a 1×1 maze carves no passage; its single cell keeps all four walls |
| MazeGenerator.SpreadEverywhere | functions.js:63-64 | the grid minus its corner `(0, 0)` is connected: if every reached cell except the root has all neighbours reached, and some cell other than the root is reached, every cell is reached |
| MazeGenerator.CarveComplete | functions.js:63-64 | when the loop exits, the cell just finished has no unvisited neighbour, and every cell has been reached |
| MazeGenerator.CarvingStarts | functions.js:53-54 | the loop invariant holds for the fresh grid, an empty stack and current cell `(0, 0)` |
| MazeGenerator.MarkFacts | functions.js:56 | marking the current cell visited keeps the shape and the open walls, and the visited flags then mark exactly the reached cells |
| MazeGenerator.CarveToNeighbour | functions.js:57-61 | carving to a cell from the scan reaches a new in-grid adjacent cell and opens exactly the passage to it |
| MazeGenerator.CarvingAdvances | functions.js:58-62 | going forward (mark, push, remove wall, move) keeps the loop invariant, with one more reached cell and one more passage |
| MazeGenerator.CarvingBacktracks | functions.js:63-64 | popping when no unvisited neighbour is left, with the stack still nonempty afterwards, keeps the loop invariant |
| MazeGenerator.CarvingEnds | functions.js:63-64 | when the stack empties, every cell is visited, the passages form a spanning tree of `cols * rows - 1` edges, and walls are symmetric and closed at the border |
| MazeGenerator.GenerateMaze | functions.js:29-67 | the returned grid is `cols` by `rows` and fully visited; its open walls are exactly the sides of a spanning tree of `cols * rows - 1` passages; walls are symmetric and no border wall is open |
| MazeSolver.MovesSpec | functions.js:80-85 | the moves from a cell are exactly the cells one open wall away, all inside the grid, in the order top, right, bottom, left |
| MazeSolver.MoveIsStep | functions.js:80-85 | each listed move goes through an open wall to a cell of the grid |
| MazeSolver.SearchStarts | functions.js:70-73 | the queue `[[start]]` with `start` visited satisfies the search invariant |
| MazeSolver.ExpansionStarts | functions.js:76-77 | taking the front path off the queue whose last cell is not the exit starts an expansion of that cell |
| MazeSolver.ExpansionVisits | functions.js:87-91 | marking an unvisited move visited and enqueueing the path extended by it keeps the expansion invariant |
| MazeSolver.ExpansionEnds | functions.js:87-92 | after all moves are handled, the expanded cell is done and the search invariant holds again |
| MazeSolver.WalkMeetsFrontier | functions.js:75-94 | every walk from the entry either meets a visited cell still waiting in the queue no later than its recorded distance allows, or stays within finished cells |
| MazeSolver.FrontIsShortest | functions.js:78 | the first dequeued path that ends at the exit is a route with no repeated cell, and no route is shorter |
| MazeSolver.ExhaustedMeansUnsolvable | functions.js:94 | when the queue drains, no route from the entry to the exit exists |
| MazeSolver.SolveMaze | functions.js:69-95 | a returned path starts at `(0, 0)`, ends at the bottom-right cell, moves through open walls, repeats no cell and is a shortest route; `None` is returned exactly when no route exists |
| MazeSolver.SingleCellRoute | functions.js:70-78 | in a 1×1 maze the shortest route is the single entry cell |
| MazeSolver.GeneratedMazeIsSolvable | functions.js:22 | a grid produced by the generator meets the solver's precondition and has a route, so the solver finds one |
| PathGeometry.PathToPoints | functions.js:97-102 | one point per cell in path order; each point is equidistant from the left and right edges of its cell's block and from its top and bottom edges; it is strictly inside the block when the cell sizes are positive |
| PathGeometry.AdjacentCentres | functions.js:97-102 | the centres of adjacent cells differ by one cell size along one axis and agree on the other |
| PathGeometry.WalkPointsStepOneCell | functions.js:97-102 | consecutive points of a walk are one cell size apart horizontally or vertically |
| ColorMatch.SquaredDistance | functions.js:107 | the squared distance is zero exactly for equal colours |
| ColorMatch.SquaredDistanceSymmetric | functions.js:107 | the squared distance is the same whichever of the two colours comes first |
| ColorMatch.ClosestColor | functions.js:104-111 | an empty table gives `"other"`; otherwise the name of the entry nearest the target, and the first of several at the same distance |
| ColorMatch.ExactEntryWins | functions.js:104-111 | when some entry equals the target, the entry named equals it too and comes no later |

## Left out

- `drawGame`, `overlayMessage` and `playTone` (functions.js:1-27, 113-137): canvas drawing, text overlay and audio output have no logic to model.
- MazeGenerator.GenerateMaze: the grid is a value that the loop reassigns, not a mesh of shared cell objects updated in place. The stack and the solver's paths hold coordinates rather than references to cells.
- MazeGenerator.GenerateMaze: requires `cols >= 1` and `rows >= 1`. With `rows = 0` the source reads `grid[0][0]` of a missing row and fails; with `cols = 0` the row exists but `grid[0][0]` is `undefined`, and the source fails when it sets `current.visited` (functions.js:56).
- MazeGenerator.GenerateMaze: takes whole-number dimensions. The fractional sizes computed at functions.js:22 are truncated by `Array.from`, and that truncation is not modelled.
- MazeGenerator.Pick: `Math.random` is an injected stream of draws in `[0, 1)`, and each index uses `floor(draw * n)` over the reals. Floating-point rounding is not modelled.
- MazeSolver.SolveMaze: requires a rectangular grid whose cells record their own coordinates and whose border walls are all closed. The source fails only when the search expands a cell with an open border wall: it indexes a row that does not exist, or pushes an `undefined` cell and then reads its `x` (functions.js:82-88). Grids whose open border walls the search never expands, for example an open outer wall on the exit cell, are excluded by the model although the source solves them. Generated mazes always meet the requirement (`GeneratedMazeIsSolvable`).
- MazeSolver.SolveMaze: the visited set of string keys `"x,y"` and the identity test `cell === end` are both modelled as comparisons of coordinates.
- PathGeometry.PathToPoints: coordinates are real numbers, not IEEE doubles.
- ColorMatch.ClosestColor: the table is the sequence of entries in `Object.entries` order. Entries whose RGB values are not integers, including NaN, are not modelled.
