/** Randomized depth-first carving of a perfect maze (generateMaze in
    functions.js), with its neighbour scan and wall removal. */
module MazeGenerator {
  import opened MazeGrid

  /** A carved passage, from a cell the carve had already reached to the
      cell it reaches through this passage. */
  datatype Edge = Edge(parent: Pos, child: Pos)

  /** Position of a direction in the order up, left, right, down in which
      the neighbour scan lists cells. */
  function ScanRank(d: Dir): nat {
    match d
    case Top => 0
    case Left => 1
    case Right => 2
    case Bottom => 3
  }

  /** [q] when q is a cell of g that has not been visited, [] otherwise
      (an index outside the grid reads as absent). */
  function UnvisitedAt(g: Grid, q: Pos): seq<Pos> {
    if InGrid(g, q) && !CellAt(g, q).visited then [q] else []
  }

  /** The cells above, left of, right of and below p, each kept when it is
      a cell of g that has not been visited. */
  function UnvisitedNeighbors(g: Grid, p: Pos): seq<Pos> {
    UnvisitedAt(g, Toward(p, Top)) + UnvisitedAt(g, Toward(p, Left))
    + UnvisitedAt(g, Toward(p, Right)) + UnvisitedAt(g, Toward(p, Bottom))
  }

  /** The scan lists exactly the unvisited cells of g next to p, in the
      order up, left, right, down. */
  lemma UnvisitedNeighborsSpec(g: Grid, p: Pos)
    ensures var r := UnvisitedNeighbors(g, p);
            && (forall q :: q in r <==> Adjacent(p, q) && InGrid(g, q) && !CellAt(g, q).visited)
            && (forall i, j :: 0 <= i < j < |r| ==> ScanRank(DirTo(p, r[i])) < ScanRank(DirTo(p, r[j])))
  {
    ScanOrder(g, p);
    forall q ensures q in UnvisitedNeighbors(g, p) <==> Adjacent(p, q) && InGrid(g, q) && !CellAt(g, q).visited {
      ScanCovers(g, p, q);
    }
  }

  lemma ScanOrder(g: Grid, p: Pos)
    ensures var r := UnvisitedNeighbors(g, p);
            forall i, j :: 0 <= i < j < |r| ==> ScanRank(DirTo(p, r[i])) < ScanRank(DirTo(p, r[j]))
  {
    var up, left := UnvisitedAt(g, Toward(p, Top)), UnvisitedAt(g, Toward(p, Left));
    var right, down := UnvisitedAt(g, Toward(p, Right)), UnvisitedAt(g, Toward(p, Bottom));
    assert forall q | q in up :: ScanRank(DirTo(p, q)) == 0;
    assert forall q | q in left :: ScanRank(DirTo(p, q)) == 1;
    assert forall q | q in right :: ScanRank(DirTo(p, q)) == 2;
    assert forall q | q in down :: ScanRank(DirTo(p, q)) == 3;
    Ascending(p, up, left, 0, 1);
    Ascending(p, up + left, right, 1, 2);
    Ascending(p, up + left + right, down, 2, 3);
  }

  lemma ScanCovers(g: Grid, p: Pos, q: Pos)
    ensures var r := UnvisitedAt(g, Toward(p, Top)) + UnvisitedAt(g, Toward(p, Left))
                     + UnvisitedAt(g, Toward(p, Right)) + UnvisitedAt(g, Toward(p, Bottom));
            q in r <==> Adjacent(p, q) && InGrid(g, q) && !CellAt(g, q).visited
  {
    if Adjacent(p, q) {
      assert q == Toward(p, DirTo(p, q));
    }
  }

  /** Joining two scan-ordered pieces, the first ranked at most k and the
      second of length at most one ranked above k, keeps the scan order. */
  lemma Ascending(p: Pos, a: seq<Pos>, b: seq<Pos>, k: nat, kb: nat)
    requires forall i, j :: 0 <= i < j < |a| ==> ScanRank(DirTo(p, a[i])) < ScanRank(DirTo(p, a[j]))
    requires forall q | q in a :: ScanRank(DirTo(p, q)) <= k
    requires |b| <= 1 && k < kb && forall q | q in b :: ScanRank(DirTo(p, q)) == kb
    ensures forall i, j :: 0 <= i < j < |a + b| ==> ScanRank(DirTo(p, (a + b)[i])) < ScanRank(DirTo(p, (a + b)[j]))
    ensures forall q | q in a + b :: ScanRank(DirTo(p, q)) <= kb
  {
    forall i, j | 0 <= i < j < |a + b|
      ensures ScanRank(DirTo(p, (a + b)[i])) < ScanRank(DirTo(p, (a + b)[j]))
    {
      if j >= |a| {
        assert (a + b)[i] in a;
      }
    }
  }

  /** The index Math.floor(draw * n) chosen by a random draw in [0, 1)
      among n candidates. */
  function Pick(draw: real, n: nat): (i: nat)
    requires 0.0 <= draw < 1.0 && n > 0
    ensures i < n
  {
    assert 0.0 <= draw * n as real < n as real;
    (draw * n as real).Floor
  }

  /** g with the wall on side da of a and the wall on side db of b cleared. */
  function ClearPair(g: Grid, a: Pos, da: Dir, b: Pos, db: Dir): Grid
    requires InGrid(g, a) && InGrid(g, b)
  {
    var g' := SetCell(g, a, CellAt(g, a).(walls := WithoutWall(CellAt(g, a).walls, da)));
    SetCell(g', b, CellAt(g', b).(walls := WithoutWall(CellAt(g', b).walls, db)))
  }

  lemma ClearPairSpec(g: Grid, a: Pos, da: Dir, b: Pos, db: Dir)
    requires InGrid(g, a) && InGrid(g, b)
    ensures var r := ClearPair(g, a, da, b, db);
      && |r| == |g| && (forall y :: 0 <= y < |g| ==> |r[y]| == |g[y]|)
      && (forall q :: InGrid(g, q) ==>
           && CellAt(r, q).x == CellAt(g, q).x && CellAt(r, q).y == CellAt(g, q).y
           && CellAt(r, q).visited == CellAt(g, q).visited)
      && (forall q, d :: Open(r, q, d) <==> Open(g, q, d) || (q == a && d == da) || (q == b && d == db))
  {
    var g' := SetCell(g, a, CellAt(g, a).(walls := WithoutWall(CellAt(g, a).walls, da)));
    var r := ClearPair(g, a, da, b, db);
    assert forall q :: InGrid(r, q) <==> InGrid(g, q);
    assert forall q :: InGrid(g', q) <==> InGrid(g, q);
    forall q, d ensures Open(r, q, d) <==> Open(g, q, d) || (q == a && d == da) || (q == b && d == db) {
      if InGrid(g, q) {
        assert Open(g', q, d) <==> Open(g, q, d) || (q == a && d == da);
      }
    }
  }

  /** Clears the wall between a and b on both sides, chosen by the offset
      from a to b; every other wall and every other field is left as it was. */
  function RemoveWall(g: Grid, a: Pos, b: Pos): Grid
    requires InGrid(g, a) && InGrid(g, b)
  {
    var dx, dy := b.x - a.x, b.y - a.y;
    if dx == 1 then ClearPair(g, a, Right, b, Left)
    else if dx == -1 then ClearPair(g, a, Left, b, Right)
    else if dy == 1 then ClearPair(g, a, Bottom, b, Top)
    else if dy == -1 then ClearPair(g, a, Top, b, Bottom)
    else g
  }

  /** Removing the wall between a and b keeps the grid's shape, every
      coordinate and every visited flag; between adjacent cells it opens
      exactly the side of a facing b and the side of b facing a. */
  lemma RemoveWallSpec(g: Grid, a: Pos, b: Pos)
    requires InGrid(g, a) && InGrid(g, b)
    ensures var r := RemoveWall(g, a, b);
      && |r| == |g| && (forall y :: 0 <= y < |g| ==> |r[y]| == |g[y]|)
      && (forall q :: InGrid(g, q) ==>
           && CellAt(r, q).x == CellAt(g, q).x && CellAt(r, q).y == CellAt(g, q).y
           && CellAt(r, q).visited == CellAt(g, q).visited)
      && (Adjacent(a, b) ==> forall q, d ::
           Open(r, q, d) <==> Open(g, q, d) || (q == a && Toward(a, d) == b) || (q == b && Toward(b, d) == a))
  {
    var dx, dy := b.x - a.x, b.y - a.y;
    if dx == 1 {
      ClearPairSpec(g, a, Right, b, Left);
    } else if dx == -1 {
      ClearPairSpec(g, a, Left, b, Right);
    } else if dy == 1 {
      ClearPairSpec(g, a, Bottom, b, Top);
    } else if dy == -1 {
      ClearPairSpec(g, a, Top, b, Bottom);
    }
  }

  /** The cells reached by a carve that has made the passages es, in order,
      starting from the root. */
  function Nodes(es: seq<Edge>): set<Pos> {
    if |es| == 0 then {Root} else Nodes(es[..|es| - 1]) + {es[|es| - 1].child}
  }

  /** Every passage of es joins a cell reached before it to an adjacent cell
      not reached before it: the passages form a tree rooted at Root. */
  ghost predicate GrowsFrom(es: seq<Edge>) {
    |es| == 0 ||
    var init, e := es[..|es| - 1], es[|es| - 1];
    && GrowsFrom(init)
    && Adjacent(e.parent, e.child) && e.parent in Nodes(init) && e.child !in Nodes(init)
  }

  /** es is a tree rooted at Root that reaches every cell of the grid. */
  ghost predicate IsSpanningTree(es: seq<Edge>, cols: int, rows: int) {
    GrowsFrom(es) && Nodes(es) == AllCells(cols, rows)
  }

  predicate Linked(es: seq<Edge>, a: Pos, b: Pos) {
    Edge(a, b) in es || Edge(b, a) in es
  }

  /** The open walls of g are exactly the two sides of each passage in es. */
  ghost predicate Passages(g: Grid, es: seq<Edge>) {
    forall p, d {:trigger Open(g, p, d)} :: InGrid(g, p) ==>
      (Open(g, p, d) <==> InGrid(g, Toward(p, d)) && Linked(es, p, Toward(p, d)))
  }

  lemma GrowStep(es: seq<Edge>, e: Edge)
    requires GrowsFrom(es)
    requires Adjacent(e.parent, e.child) && e.parent in Nodes(es) && e.child !in Nodes(es)
    ensures GrowsFrom(es + [e]) && Nodes(es + [e]) == Nodes(es) + {e.child}
  {
    assert (es + [e])[..|es|] == es;
  }

  /** Each passage adds one cell, so a tree of n passages reaches n + 1 cells. */
  lemma {:induction false} NodesCount(es: seq<Edge>)
    requires GrowsFrom(es)
    ensures |Nodes(es)| == |es| + 1
  {
    if |es| > 0 {
      NodesCount(es[..|es| - 1]);
    }
  }

  /** A spanning tree of a cols-by-rows grid has cols * rows - 1 passages. */
  lemma SpanningTreeSize(es: seq<Edge>, cols: nat, rows: nat)
    requires IsSpanningTree(es, cols, rows)
    ensures |es| == cols * rows - 1
  {
    NodesCount(es);
    AllCellsCount(cols, rows);
  }

  /** Passages opened in pairs leave no wall open on one side only and none
      open toward the outside. */
  lemma PassagesAreSymmetric(g: Grid, es: seq<Edge>)
    requires Passages(g, es)
    ensures BorderClosed(g) && WallsSymmetric(g)
  {
    forall p, d | Open(g, p, d) ensures InGrid(g, Toward(p, d)) {
    }
    forall p, q | Adjacent(p, q) && InGrid(g, p) && InGrid(g, q)
      ensures Open(g, p, DirTo(p, q)) <==> Open(g, q, DirTo(q, p))
    {
      assert Toward(p, DirTo(p, q)) == q && Toward(q, DirTo(q, p)) == p;
      assert Linked(es, p, q) <==> Linked(es, q, p);
    }
  }

  /** Every cell a passage tree reaches can be walked to from the root
      through open walls. */
  lemma {:induction false} TreeReaches(g: Grid, es: seq<Edge>, n: nat)
    requires n <= |es| && GrowsFrom(es[..n]) && Passages(g, es)
    requires InGrid(g, Root) && forall i :: 0 <= i < |es| ==> InGrid(g, es[i].child)
    ensures forall p :: p in Nodes(es[..n]) ==> Reaches(g, Root, p)
  {
    if n == 0 {
      assert IsWalk(g, [Root]);
    } else {
      assert es[..n][..n - 1] == es[..n - 1];
      TreeReaches(g, es, n - 1);
      var e := es[n - 1];
      var w :| IsWalk(g, w) && w[0] == Root && w[|w| - 1] == e.parent;
      assert Toward(e.parent, DirTo(e.parent, e.child)) == e.child;
      assert Linked(es, e.parent, e.child);
      var w' := w + [e.child];
      assert IsWalk(g, w');
    }
  }

  /** Every passage leads to a node of the tree. */
  lemma {:induction false} ChildrenAreNodes(es: seq<Edge>)
    ensures forall i :: 0 <= i < |es| ==> es[i].child in Nodes(es)
  {
    if |es| > 0 {
      var init := es[..|es| - 1];
      ChildrenAreNodes(init);
      forall i | 0 <= i < |es| - 1
        ensures es[i].child in Nodes(es)
      {
        assert es[i] == init[i];
      }
    }
  }

  /** In a grid whose open walls are the passages of a spanning tree, every
      cell can be walked to from the root: the maze is connected. */
  lemma SpanningTreeConnects(g: Grid, es: seq<Edge>, cols: int, rows: int)
    requires Shaped(g, cols, rows) && cols >= 1 && rows >= 1
    requires IsSpanningTree(es, cols, rows) && Passages(g, es)
    ensures forall p :: InGrid(g, p) ==> Reaches(g, Root, p)
  {
    ChildrenAreNodes(es);
    assert es[..|es|] == es;
    TreeReaches(g, es, |es|);
  }

  /** A one-cell maze has no passage: its only cell keeps all four walls. */
  lemma SingleCellStaysClosed(g: Grid, es: seq<Edge>)
    requires Shaped(g, 1, 1) && IsSpanningTree(es, 1, 1) && Passages(g, es)
    ensures |es| == 0 && CellAt(g, Root).walls == Closed
  {
    SpanningTreeSize(es, 1, 1);
    forall d ensures Wall(CellAt(g, Root).walls, d) {
      assert !Linked(es, Root, Toward(Root, d));
      assert !Open(g, Root, d);
    }
    assert Wall(CellAt(g, Root).walls, Top) && Wall(CellAt(g, Root).walls, Right);
    assert Wall(CellAt(g, Root).walls, Bottom) && Wall(CellAt(g, Root).walls, Left);
  }

  /** Every neighbour of p inside the cols-by-rows grid is in reached. */
  ghost predicate Surrounded(cols: int, rows: int, reached: set<Pos>, p: Pos) {
    forall d :: Toward(p, d) in AllCells(cols, rows) ==> Toward(p, d) in reached
  }

  /** Every reached cell other than the root has all its grid neighbours
      reached. */
  ghost predicate ClosedExceptRoot(cols: int, rows: int, reached: set<Pos>) {
    forall p :: p in reached && p != Root ==> Surrounded(cols, rows, reached, p)
  }

  lemma {:induction false} SpreadAlongRow(cols: int, rows: int, reached: set<Pos>, c: Pos, k: int)
    requires ClosedExceptRoot(cols, rows, reached)
    requires c in reached && c != Root && c in AllCells(cols, rows) && 0 <= k < cols
    ensures Pos(k, c.y) in reached
    decreases if k < c.x then c.x - k else k - c.x
  {
    if k > c.x {
      SpreadAlongRow(cols, rows, reached, c, k - 1);
      assert Toward(Pos(k - 1, c.y), Right) == Pos(k, c.y);
    } else if k < c.x {
      SpreadAlongRow(cols, rows, reached, c, k + 1);
      assert Toward(Pos(k + 1, c.y), Left) == Pos(k, c.y);
    }
  }

  lemma {:induction false} SpreadAlongColumn(cols: int, rows: int, reached: set<Pos>, c: Pos, k: int)
    requires ClosedExceptRoot(cols, rows, reached)
    requires c in reached && c != Root && c in AllCells(cols, rows) && 0 <= k < rows
    ensures Pos(c.x, k) in reached
    decreases if k < c.y then c.y - k else k - c.y
  {
    if k > c.y {
      SpreadAlongColumn(cols, rows, reached, c, k - 1);
      assert Toward(Pos(c.x, k - 1), Bottom) == Pos(c.x, k);
    } else if k < c.y {
      SpreadAlongColumn(cols, rows, reached, c, k + 1);
      assert Toward(Pos(c.x, k + 1), Top) == Pos(c.x, k);
    }
  }

  /** The grid without its corner (0, 0) is connected: once one cell other
      than the root is reached and every reached cell other than the root
      has its neighbours reached, every cell is reached. */
  lemma SpreadEverywhere(cols: int, rows: int, reached: set<Pos>, c: Pos)
    requires ClosedExceptRoot(cols, rows, reached)
    requires c in reached && c != Root && c in AllCells(cols, rows)
    ensures AllCells(cols, rows) <= reached
  {
    forall p | p in AllCells(cols, rows) ensures p in reached {
      if c.x >= 1 {
        SpreadAlongColumn(cols, rows, reached, c, p.y);
        SpreadAlongRow(cols, rows, reached, Pos(c.x, p.y), p.x);
      } else {
        SpreadAlongRow(cols, rows, reached, c, p.x);
        SpreadAlongColumn(cols, rows, reached, Pos(p.x, c.y), p.y);
      }
    }
  }

  /** When the carve stops, every cell has been reached. The cell finished
      last has all its neighbours reached; unless it is the root itself, it
      is a reached cell other than the root. */
  lemma CarveComplete(cols: int, rows: int, reached: set<Pos>, finished: Pos)
    requires cols >= 1 && rows >= 1
    requires reached <= AllCells(cols, rows) && Root in reached && finished in reached
    requires ClosedExceptRoot(cols, rows, reached)
    requires Surrounded(cols, rows, reached, finished)
    ensures reached == AllCells(cols, rows)
  {
    if finished != Root {
      SpreadEverywhere(cols, rows, reached, finished);
    } else if cols >= 2 {
      assert Toward(Root, Right) in reached;
      SpreadEverywhere(cols, rows, reached, Toward(Root, Right));
    } else if rows >= 2 {
      assert Toward(Root, Bottom) in reached;
      SpreadEverywhere(cols, rows, reached, Toward(Root, Bottom));
    } else {
      assert AllCells(cols, rows) == {Root};
    }
  }

  /** Every reached cell that is neither current nor on the stack has all
      its grid neighbours reached: the search is done with it. */
  ghost predicate DoneOutside(cols: int, rows: int, reached: set<Pos>, stack: seq<Pos>, current: Pos) {
    forall p :: p in reached && p != current && p !in stack ==> Surrounded(cols, rows, reached, p)
  }

  /** The visited flags of g mark exactly the reached cells, except that
      current may not be marked yet. */
  ghost predicate VisitedMatches(g: Grid, reached: set<Pos>, current: Pos) {
    forall p :: InGrid(g, p) && p != current ==> (CellAt(g, p).visited <==> p in reached)
  }

  lemma DoneAfterForward(cols: int, rows: int, reached: set<Pos>, stack: seq<Pos>, current: Pos, next: Pos)
    requires DoneOutside(cols, rows, reached, stack, current)
    ensures DoneOutside(cols, rows, reached + {next}, stack + [current], next)
  {
    forall p | p in reached + {next} && p != next && p !in stack + [current]
      ensures Surrounded(cols, rows, reached + {next}, p)
    {
      assert p in reached && p != current && p !in stack;
      assert Surrounded(cols, rows, reached, p);
    }
  }

  lemma DoneAfterBacktrack(cols: int, rows: int, reached: set<Pos>, stack: seq<Pos>, current: Pos)
    requires DoneOutside(cols, rows, reached, stack, current) && stack != []
    requires Surrounded(cols, rows, reached, current)
    ensures DoneOutside(cols, rows, reached, stack[..|stack| - 1], stack[|stack| - 1])
  {
    var rest, top := stack[..|stack| - 1], stack[|stack| - 1];
    forall p | p in reached && p != top && p !in rest
      ensures Surrounded(cols, rows, reached, p)
    {
      if p != current {
        assert stack == rest + [top];
        assert p !in stack;
      }
    }
  }

  /** A cell none of whose neighbours is unvisited has all its grid
      neighbours reached. */
  lemma NeighboursReached(g: Grid, cols: int, rows: int, reached: set<Pos>, p: Pos)
    requires Shaped(g, cols, rows) && UnvisitedNeighbors(g, p) == []
    requires forall q :: InGrid(g, q) && CellAt(g, q).visited ==> q in reached
    ensures Surrounded(cols, rows, reached, p)
  {
    UnvisitedNeighborsSpec(g, p);
    forall d | Toward(p, d) in AllCells(cols, rows) ensures Toward(p, d) in reached {
      var q := Toward(p, d);
      assert InGrid(g, q) && Adjacent(p, q);
      assert q !in UnvisitedNeighbors(g, p);
    }
  }

  /** Carving changes no coordinates and no visited flag. */
  lemma CarveKeepsShape(g: Grid, cols: int, rows: int, reached: set<Pos>, a: Pos, b: Pos)
    requires Shaped(g, cols, rows) && InGrid(g, a) && InGrid(g, b)
    requires VisitedMatches(g, reached, b)
    ensures Shaped(RemoveWall(g, a, b), cols, rows)
    ensures VisitedMatches(RemoveWall(g, a, b), reached + {b}, b)
  {
    RemoveWallSpec(g, a, b);
    var r := RemoveWall(g, a, b);
    assert forall q :: InGrid(r, q) <==> InGrid(g, q);
  }

  /** Marking a cell visited leaves every wall as it was. */
  lemma MarkKeepsPassages(g: Grid, p: Pos, es: seq<Edge>)
    requires InGrid(g, p) && Passages(g, es)
    ensures Passages(SetCell(g, p, CellAt(g, p).(visited := true)), es)
  {
    var g' := SetCell(g, p, CellAt(g, p).(visited := true));
    assert forall q :: InGrid(g', q) <==> InGrid(g, q);
    assert forall q, d :: Open(g', q, d) <==> Open(g, q, d);
  }

  /** Carving between adjacent cells a and b opens exactly the two sides of
      the new passage. */
  lemma CarveKeepsPassages(g: Grid, es: seq<Edge>, a: Pos, b: Pos)
    requires Passages(g, es) && InGrid(g, a) && InGrid(g, b) && Adjacent(a, b)
    ensures Passages(RemoveWall(g, a, b), es + [Edge(a, b)])
  {
    RemoveWallSpec(g, a, b);
    var g', es' := RemoveWall(g, a, b), es + [Edge(a, b)];
    assert forall q :: InGrid(g', q) <==> InGrid(g, q);
    forall q, d | InGrid(g', q)
      ensures Open(g', q, d) <==> InGrid(g', Toward(q, d)) && Linked(es', q, Toward(q, d))
    {
      var t := Toward(q, d);
      assert Linked(es', q, t) <==> Linked(es, q, t) || (q == a && t == b) || (q == b && t == a);
    }
  }

  /** The state of the carve at the top of each round: the stack runs from
      the root, every cell on it and current have been reached, the visited
      flags and the passages match what has been reached and carved, and the
      search is done with every other reached cell. */
  ghost predicate Carving(cols: int, rows: int, g: Grid, stack: seq<Pos>, current: Pos,
                          reached: set<Pos>, tree: seq<Edge>)
  {
    && Shaped(g, cols, rows)
    && Root in reached && reached <= AllCells(cols, rows)
    && current in reached && InGrid(g, current) && VisitedMatches(g, reached, current)
    && (forall i :: 0 <= i < |stack| ==> stack[i] in reached)
    && (if stack == [] then current == Root else stack[0] == Root)
    && DoneOutside(cols, rows, reached, stack, current)
    && GrowsFrom(tree) && Nodes(tree) == reached
    && Passages(g, tree)
  }

  lemma CarvingStarts(cols: nat, rows: nat)
    requires cols >= 1 && rows >= 1
    ensures Carving(cols, rows, CreateGrid(cols, rows), [], Root, {Root}, [])
  {
    var g := CreateGrid(cols, rows);
    forall p, d | InGrid(g, p) ensures !Open(g, p, d) {
      assert CellAt(g, p).walls == Closed;
    }
  }

  /** g with the cell at p marked visited. */
  function MarkVisited(g: Grid, p: Pos): Grid
    requires InGrid(g, p)
  {
    SetCell(g, p, CellAt(g, p).(visited := true))
  }

  /** Marking current visited keeps the shape and the passages, and makes
      the visited flags mark exactly the reached cells. */
  lemma MarkFacts(cols: int, rows: int, g: Grid, current: Pos, reached: set<Pos>, tree: seq<Edge>)
    requires Shaped(g, cols, rows) && InGrid(g, current) && current in reached
    requires VisitedMatches(g, reached, current) && Passages(g, tree)
    ensures var g' := MarkVisited(g, current);
            && Shaped(g', cols, rows) && InGrid(g', current) && Passages(g', tree)
            && forall p :: InGrid(g', p) ==> (CellAt(g', p).visited <==> p in reached)
  {
    var c := CellAt(g, current).(visited := true);
    SetCellKeepsShape(g, cols, rows, current, c);
    MarkKeepsPassages(g, current, tree);
  }

  /** Marking current visited keeps the carve state and makes the visited
      flags mark exactly the reached cells. */
  lemma CarvingMarks(cols: int, rows: int, g: Grid, stack: seq<Pos>, current: Pos,
                     reached: set<Pos>, tree: seq<Edge>)
    requires Carving(cols, rows, g, stack, current, reached, tree)
    ensures InGrid(g, current)
    ensures var g' := MarkVisited(g, current);
            && Carving(cols, rows, g', stack, current, reached, tree)
            && forall p :: InGrid(g', p) ==> (CellAt(g', p).visited <==> p in reached)
  {
    MarkFacts(cols, rows, g, current, reached, tree);
  }

  /** Carving from current, whose flag is set, to an unvisited neighbour
      next keeps the shape, marks exactly the reached cells but next, and
      opens exactly the passages of the tree grown by the new edge. */
  lemma CarveToNeighbour(cols: int, rows: int, g: Grid, reached: set<Pos>, tree: seq<Edge>,
                         current: Pos, next: Pos)
    requires Shaped(g, cols, rows) && Passages(g, tree) && InGrid(g, current)
    requires forall p :: InGrid(g, p) ==> (CellAt(g, p).visited <==> p in reached)
    requires next in UnvisitedNeighbors(g, current)
    ensures Adjacent(current, next) && next in AllCells(cols, rows) && next !in reached
    ensures var g2 := RemoveWall(g, current, next);
            && Shaped(g2, cols, rows) && InGrid(g2, next)
            && VisitedMatches(g2, reached + {next}, next)
            && Passages(g2, tree + [Edge(current, next)])
  {
    UnvisitedNeighborsSpec(g, current);
    assert InGrid(g, next);
    CarveKeepsShape(g, cols, rows, reached, current, next);
    CarveKeepsPassages(g, tree, current, next);
  }

  /** Reaching one more cell of all leaves fewer cells of all unreached. */
  lemma FewerUnreached(all: set<Pos>, reached: set<Pos>, next: Pos)
    requires next in all && next !in reached
    ensures |all - (reached + {next})| < |all - reached|
  {
    assert all - (reached + {next}) == (all - reached) - {next};
  }

  /** Going forward: current is marked visited, pushed, the passage to its
      unvisited neighbour next is carved, and the carve continues from next. */
  lemma CarvingAdvances(cols: int, rows: int, g: Grid, stack: seq<Pos>, current: Pos,
                        reached: set<Pos>, tree: seq<Edge>, next: Pos)
    requires Carving(cols, rows, g, stack, current, reached, tree)
    requires InGrid(g, current) && next in UnvisitedNeighbors(MarkVisited(g, current), current)
    ensures next in AllCells(cols, rows) && next !in reached
    ensures Carving(cols, rows, RemoveWall(MarkVisited(g, current), current, next),
                    stack + [current], next, reached + {next}, tree + [Edge(current, next)])
  {
    MarkFacts(cols, rows, g, current, reached, tree);
    CarveToNeighbour(cols, rows, MarkVisited(g, current), reached, tree, current, next);
    var stack', reached', tree' := stack + [current], reached + {next}, tree + [Edge(current, next)];
    GrowStep(tree, Edge(current, next));
    DoneAfterForward(cols, rows, reached, stack, current, next);
    assert forall i :: 0 <= i < |stack'| ==> stack'[i] in reached';
  }

  /** Going back: current, now marked visited, has no unvisited neighbour;
      the top of the stack is popped into current. */
  lemma CarvingBacktracks(cols: int, rows: int, g: Grid, stack: seq<Pos>, current: Pos,
                          reached: set<Pos>, tree: seq<Edge>)
    requires Carving(cols, rows, g, stack, current, reached, tree)
    requires InGrid(g, current) && UnvisitedNeighbors(MarkVisited(g, current), current) == []
    requires |stack| >= 2
    ensures Carving(cols, rows, MarkVisited(g, current), stack[..|stack| - 1], stack[|stack| - 1],
                    reached, tree)
  {
    CarvingMarks(cols, rows, g, stack, current, reached, tree);
    var g' := MarkVisited(g, current);
    NeighboursReached(g', cols, rows, reached, current);
    DoneAfterBacktrack(cols, rows, reached, stack, current);
  }

  /** The stack is about to empty (it holds only the root, or nothing on the
      very first round) and current, now marked visited, has no unvisited
      neighbour: every cell has been reached and visited, and the passages
      form a spanning tree of cols * rows - 1 edges, opened on both sides
      and never toward the outside. */
  lemma CarvingEnds(cols: int, rows: int, g: Grid, stack: seq<Pos>, current: Pos,
                    reached: set<Pos>, tree: seq<Edge>)
    requires cols >= 1 && rows >= 1
    requires Carving(cols, rows, g, stack, current, reached, tree)
    requires InGrid(g, current) && UnvisitedNeighbors(MarkVisited(g, current), current) == []
    requires |stack| <= 1
    ensures var g' := MarkVisited(g, current);
            && Shaped(g', cols, rows) && Passages(g', tree)
            && (forall p :: InGrid(g', p) ==> CellAt(g', p).visited)
            && IsSpanningTree(tree, cols, rows) && |tree| == cols * rows - 1
            && BorderClosed(g') && WallsSymmetric(g')
  {
    CarvingMarks(cols, rows, g, stack, current, reached, tree);
    var g' := MarkVisited(g, current);
    NeighboursReached(g', cols, rows, reached, current);
    assert DoneOutside(cols, rows, reached, stack, current);
    assert forall p :: p in stack ==> p == Root by {
      if stack != [] {
        assert stack == [stack[0]];
      }
    }
    forall p | p in reached && p != Root
      ensures Surrounded(cols, rows, reached, p)
    {
      if p != current {
        assert p !in stack;
      }
    }
    assert ClosedExceptRoot(cols, rows, reached);
    CarveComplete(cols, rows, reached, current);
    SpanningTreeSize(tree, cols, rows);
    PassagesAreSymmetric(g', tree);
  }

  /** Builds a rows-by-cols grid and carves it by randomized depth-first
      search from (0, 0); random(k) is the k-th value Math.random returns.
      The ghost result tree lists the carved passages in the order they were
      made. */
  method GenerateMaze(cols: nat, rows: nat, random: nat -> real) returns (grid: Grid, ghost tree: seq<Edge>)
    requires cols >= 1 && rows >= 1
    requires forall k :: 0.0 <= random(k) < 1.0
    ensures Shaped(grid, cols, rows)
    ensures forall p :: InGrid(grid, p) ==> CellAt(grid, p).visited
    ensures IsSpanningTree(tree, cols, rows) && |tree| == cols * rows - 1
    ensures Passages(grid, tree)
    ensures BorderClosed(grid) && WallsSymmetric(grid)
  {
    grid := CreateGrid(cols, rows);
    var stack: seq<Pos> := [];
    var current := Root;
    var draws := 0;
    tree := [];
    ghost var reached: set<Pos> := {Root};
    CarvingStarts(cols, rows);
    while true
      invariant Carving(cols, rows, grid, stack, current, reached, tree)
      invariant draws == |tree|
      decreases |AllCells(cols, rows) - reached|, |stack|
    {
      ghost var before := grid;
      grid := MarkVisited(grid, current);
      var neighbors := UnvisitedNeighbors(grid, current);
      if |neighbors| > 0 {
        var next := neighbors[Pick(random(draws), |neighbors|)];
        draws := draws + 1;
        CarvingAdvances(cols, rows, before, stack, current, reached, tree, next);
        FewerUnreached(AllCells(cols, rows), reached, next);
        stack := stack + [current];
        grid := RemoveWall(grid, current, next);
        tree := tree + [Edge(current, next)];
        reached := reached + {next};
        current := next;
      } else if |stack| >= 2 {
        CarvingBacktracks(cols, rows, before, stack, current, reached, tree);
        current := stack[|stack| - 1];
        stack := stack[..|stack| - 1];
      } else {
        CarvingEnds(cols, rows, before, stack, current, reached, tree);
        if stack != [] {
          current := stack[|stack| - 1];
          stack := stack[..|stack| - 1];
        }
      }
      if stack == [] {
        break;
      }
    }
  }
}
