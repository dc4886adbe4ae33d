/** Turning a path of cells into the points the path is drawn through: the
    centre of each cell's block of cellSizeX by cellSizeY pixels. */
module PathGeometry {
  import opened MazeGrid

  datatype Point = Point(x: real, y: real)

  /** The left and right edges of the block of pixel columns covered by
      cell column k; the top and bottom edges of a row are the same with the
      row height. */
  function LowEdge(k: int, size: real): real {
    k as real * size
  }

  function HighEdge(k: int, size: real): real {
    (k + 1) as real * size
  }

  /** q lies strictly inside the pixel block of cell c. */
  predicate InBlock(q: Point, c: Pos, cellSizeX: real, cellSizeY: real) {
    && LowEdge(c.x, cellSizeX) < q.x < HighEdge(c.x, cellSizeX)
    && LowEdge(c.y, cellSizeY) < q.y < HighEdge(c.y, cellSizeY)
  }

  /** q is as far from the left edge of c's block as from its right edge,
      and as far from the top edge as from the bottom edge. */
  predicate Centred(q: Point, c: Pos, cellSizeX: real, cellSizeY: real) {
    && q.x - LowEdge(c.x, cellSizeX) == HighEdge(c.x, cellSizeX) - q.x
    && q.y - LowEdge(c.y, cellSizeY) == HighEdge(c.y, cellSizeY) - q.y
  }

  /** The point drawn for cell c, in pixels. */
  function Centre(c: Pos, cellSizeX: real, cellSizeY: real): Point {
    Point(c.x as real * cellSizeX + cellSizeX / 2.0, c.y as real * cellSizeY + cellSizeY / 2.0)
  }

  /** One point per cell of the path, in the same order; each point is the
      centre of its cell's block, and with positive cell sizes it lies inside
      that block. */
  function PathToPoints(path: seq<Pos>, cellSizeX: real, cellSizeY: real): (points: seq<Point>)
    ensures |points| == |path|
    ensures forall i :: 0 <= i < |path| ==> Centred(points[i], path[i], cellSizeX, cellSizeY)
    ensures cellSizeX > 0.0 && cellSizeY > 0.0 ==>
      forall i :: 0 <= i < |path| ==> InBlock(points[i], path[i], cellSizeX, cellSizeY)
  {
    seq(|path|, i requires 0 <= i < |path| => Centre(path[i], cellSizeX, cellSizeY))
  }

  /** The centres of two adjacent cells are one cell size apart along one
      axis and equal along the other. */
  lemma AdjacentCentres(p: Pos, q: Pos, cellSizeX: real, cellSizeY: real)
    requires Adjacent(p, q)
    ensures var a, b := Centre(p, cellSizeX, cellSizeY), Centre(q, cellSizeX, cellSizeY);
            || (a.y == b.y && (b.x - a.x == cellSizeX || a.x - b.x == cellSizeX))
            || (a.x == b.x && (b.y - a.y == cellSizeY || a.y - b.y == cellSizeY))
  {
    if p.x == q.x {
      assert q.y as real * cellSizeY == p.y as real * cellSizeY + cellSizeY
          || q.y as real * cellSizeY == p.y as real * cellSizeY - cellSizeY;
    } else {
      assert q.x as real * cellSizeX == p.x as real * cellSizeX + cellSizeX
          || q.x as real * cellSizeX == p.x as real * cellSizeX - cellSizeX;
    }
  }

  /** Consecutive cells of a walk give points one cell size apart along one
      axis and equal along the other: the drawn path is made of horizontal
      and vertical segments of one cell each. */
  lemma WalkPointsStepOneCell(g: Grid, path: seq<Pos>, cellSizeX: real, cellSizeY: real, i: int)
    requires IsWalk(g, path) && 0 <= i < |path| - 1
    ensures var points := PathToPoints(path, cellSizeX, cellSizeY);
            var a, b := points[i], points[i + 1];
            || (a.y == b.y && (b.x - a.x == cellSizeX || a.x - b.x == cellSizeX))
            || (a.x == b.x && (b.y - a.y == cellSizeY || a.y - b.y == cellSizeY))
  {
    assert Step(g, path[i], path[i + 1]);
    AdjacentCentres(path[i], path[i + 1], cellSizeX, cellSizeY);
  }
}
