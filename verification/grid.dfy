/** The grid model shared by the generator and the solver: cells laid out
    row by row (grid[y][x]), each with four wall flags and a visited flag,
    the four directions between axis-adjacent cells, and walks that move
    only through open walls. */
module MazeGrid {

  /** Coordinates of a cell: column x, row y. A cell object of the source is
      identified by its coordinates. */
  datatype Pos = Pos(x: int, y: int)

  /** The four walls of a cell; true means the wall is present. */
  datatype Walls = Walls(top: bool, right: bool, bottom: bool, left: bool)

  datatype Cell = Cell(x: int, y: int, visited: bool, walls: Walls)

  /** The coordinates a cell records for itself. */
  function Coords(c: Cell): Pos {
    Pos(c.x, c.y)
  }

  /** A grid of rows, indexed grid[y][x]. */
  type Grid = seq<seq<Cell>>

  datatype Dir = Top | Right | Bottom | Left

  /** The corner cell (0, 0) where generation starts and the solver enters. */
  const Root := Pos(0, 0)

  const Closed := Walls(true, true, true, true)

  function Toward(p: Pos, d: Dir): Pos {
    match d
    case Top => Pos(p.x, p.y - 1)
    case Right => Pos(p.x + 1, p.y)
    case Bottom => Pos(p.x, p.y + 1)
    case Left => Pos(p.x - 1, p.y)
  }

  /** a and b differ by one step along exactly one axis. */
  predicate Adjacent(a: Pos, b: Pos) {
    || (a.x == b.x && (b.y == a.y - 1 || b.y == a.y + 1))
    || (a.y == b.y && (b.x == a.x - 1 || b.x == a.x + 1))
  }

  /** The side of a that faces b. */
  function DirTo(a: Pos, b: Pos): (d: Dir)
    ensures Adjacent(a, b) ==> Toward(a, d) == b
  {
    if b.y < a.y then Top
    else if b.x > a.x then Right
    else if b.y > a.y then Bottom
    else Left
  }

  function Wall(w: Walls, d: Dir): bool {
    match d
    case Top => w.top
    case Right => w.right
    case Bottom => w.bottom
    case Left => w.left
  }

  /** The walls w with the one on side d cleared. */
  function WithoutWall(w: Walls, d: Dir): (r: Walls)
    ensures !Wall(r, d)
    ensures forall e :: e != d ==> Wall(r, e) == Wall(w, e)
  {
    match d
    case Top => w.(top := false)
    case Right => w.(right := false)
    case Bottom => w.(bottom := false)
    case Left => w.(left := false)
  }

  predicate InGrid(g: Grid, p: Pos) {
    0 <= p.y < |g| && 0 <= p.x < |g[p.y]|
  }

  function CellAt(g: Grid, p: Pos): Cell
    requires InGrid(g, p)
  {
    g[p.y][p.x]
  }

  /** g has rows rows of cols cells each, and every cell records its own
      coordinates. */
  ghost predicate Shaped(g: Grid, cols: int, rows: int) {
    && |g| == rows
    && (forall y :: 0 <= y < rows ==> |g[y]| == cols)
    && (forall p :: InGrid(g, p) ==> Coords(CellAt(g, p)) == p)
  }

  /** The grid g with the cell at p replaced by c. */
  function SetCell(g: Grid, p: Pos, c: Cell): (r: Grid)
    requires InGrid(g, p)
    ensures |r| == |g| && forall y :: 0 <= y < |g| ==> |r[y]| == |g[y]|
    ensures forall q :: InGrid(g, q) ==> CellAt(r, q) == if q == p then c else CellAt(g, q)
  {
    g[p.y := g[p.y][p.x := c]]
  }

  /** Replacing a cell by one with the same coordinates keeps the shape. */
  lemma SetCellKeepsShape(g: Grid, cols: int, rows: int, p: Pos, c: Cell)
    requires Shaped(g, cols, rows) && InGrid(g, p) && c.x == p.x && c.y == p.y
    ensures Shaped(SetCell(g, p, c), cols, rows)
  {
    var r := SetCell(g, p, c);
    assert forall q :: InGrid(r, q) <==> InGrid(g, q);
  }

  /** The set of coordinates of a cols-by-rows grid. */
  function AllCells(cols: int, rows: int): (s: set<Pos>)
    ensures forall p :: p in s <==> 0 <= p.x < cols && 0 <= p.y < rows
  {
    var s := set x, y | 0 <= x < cols && 0 <= y < rows :: Pos(x, y);
    assert forall p: Pos | 0 <= p.x < cols && 0 <= p.y < rows :: Pos(p.x, p.y) in s;
    s
  }

  function RowCells(cols: int, y: int): (s: set<Pos>)
    ensures forall p :: p in s <==> 0 <= p.x < cols && p.y == y
  {
    var s := set x | 0 <= x < cols :: Pos(x, y);
    assert forall p: Pos | 0 <= p.x < cols && p.y == y :: Pos(p.x, y) in s;
    s
  }

  /** A row with one more column holds one more cell. */
  lemma RowCellsSplit(cols: nat, y: int)
    requires cols > 0
    ensures RowCells(cols, y) == RowCells(cols - 1, y) + {Pos(cols - 1, y)}
    ensures Pos(cols - 1, y) !in RowCells(cols - 1, y)
  {
    var row, shorter := RowCells(cols, y), RowCells(cols - 1, y);
    assert forall p :: p in row <==> p in shorter || p == Pos(cols - 1, y);
  }

  lemma {:induction false} RowCellsCount(cols: nat, y: int)
    ensures |RowCells(cols, y)| == cols
  {
    if cols > 0 {
      RowCellsCount(cols - 1, y);
      RowCellsSplit(cols, y);
    } else {
      assert RowCells(cols, y) == {};
    }
  }

  /** The cells of a grid with one more row are those of the grid without
      it plus the cells of that row, and the two parts share no cell. */
  lemma AllCellsSplit(cols: nat, rows: nat)
    requires rows > 0
    ensures AllCells(cols, rows) == AllCells(cols, rows - 1) + RowCells(cols, rows - 1)
    ensures AllCells(cols, rows - 1) !! RowCells(cols, rows - 1)
  {
    var all, upper, last := AllCells(cols, rows), AllCells(cols, rows - 1), RowCells(cols, rows - 1);
    assert forall p :: p in all <==> p in upper || p in last;
  }

  /** A cols-by-rows grid has cols * rows cells. */
  lemma {:induction false} AllCellsCount(cols: nat, rows: nat)
    ensures |AllCells(cols, rows)| == cols * rows
  {
    if rows > 0 {
      AllCellsCount(cols, rows - 1);
      RowCellsCount(cols, rows - 1);
      AllCellsSplit(cols, rows);
      assert cols * rows == cols * (rows - 1) + cols;
    } else {
      assert AllCells(cols, rows) == {};
    }
  }

  /** Every cell of g has all four walls and has not been visited. */
  ghost predicate Fresh(g: Grid) {
    forall p :: InGrid(g, p) ==> !CellAt(g, p).visited && CellAt(g, p).walls == Closed
  }

  /** The grid the generator starts from: rows rows of cols cells, cell
      (x, y) at grid[y][x], all walls present, nothing visited. */
  function CreateGrid(cols: nat, rows: nat): (g: Grid)
    ensures Shaped(g, cols, rows)
    ensures Fresh(g)
  {
    seq(rows, y => seq(cols, x => Cell(x, y, false, Closed)))
  }

  /** The wall of p's cell on side d is absent. */
  predicate Open(g: Grid, p: Pos, d: Dir) {
    InGrid(g, p) && !Wall(CellAt(g, p).walls, d)
  }

  /** No cell has an open wall toward the outside of the grid. */
  ghost predicate BorderClosed(g: Grid) {
    forall p, d {:trigger Open(g, p, d)} :: Open(g, p, d) ==> InGrid(g, Toward(p, d))
  }

  /** Between two cells of the grid, a wall is open on one side exactly
      when it is open on the other. */
  ghost predicate WallsSymmetric(g: Grid) {
    forall p, q :: Adjacent(p, q) && InGrid(g, p) && InGrid(g, q) ==>
      (Open(g, p, DirTo(p, q)) <==> Open(g, q, DirTo(q, p)))
  }

  /** One move from a to the adjacent cell b through a's open wall. */
  predicate Step(g: Grid, a: Pos, b: Pos) {
    Adjacent(a, b) && InGrid(g, b) && Open(g, a, DirTo(a, b))
  }

  /** A nonempty sequence of cells of g, each reached from the one before
      by a Step. */
  predicate IsWalk(g: Grid, w: seq<Pos>) {
    && |w| >= 1
    && (forall i :: 0 <= i < |w| ==> InGrid(g, w[i]))
    && (forall i :: 0 <= i < |w| - 1 ==> Step(g, w[i], w[i + 1]))
  }

  ghost predicate Reaches(g: Grid, a: Pos, b: Pos) {
    exists w :: IsWalk(g, w) && w[0] == a && w[|w| - 1] == b
  }
}
