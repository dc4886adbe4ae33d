/** Breadth-first search from the corner cell (0, 0) to the opposite corner,
    moving only through open walls. The queue holds whole paths; the visited
    set holds the cells already put on some path. */
module MazeSolver {
  import opened MazeGrid
  import opened MazeGenerator

  datatype Option<T> = None | Some(value: T)

  /** The cell the solver is looking for: the last cell of the last row. */
  function Exit(g: Grid): Pos
    requires |g| > 0
  {
    Pos(|g[0]| - 1, |g| - 1)
  }

  /** A grid the solver can run on: at least one cell, rectangular, cells
      recording their own coordinates, and no wall open toward the outside
      (through such a wall the solver would look up a cell that is not
      there). */
  ghost predicate IsMaze(g: Grid) {
    |g| > 0 && |g[0]| > 0 && Shaped(g, |g[0]|, |g|) && BorderClosed(g)
  }

  /** A walk from the entry cell to the exit cell. */
  predicate IsRoute(g: Grid, w: seq<Pos>) {
    |g| > 0 && IsWalk(g, w) && w[0] == Root && w[|w| - 1] == Exit(g)
  }

  ghost predicate Solvable(g: Grid) {
    exists w :: IsRoute(g, w)
  }

  predicate Distinct(w: seq<Pos>) {
    forall i, j :: 0 <= i < j < |w| ==> w[i] != w[j]
  }

  function Last(w: seq<Pos>): Pos
    requires |w| > 0
  {
    w[|w| - 1]
  }

  /** Order in which the solver tries the sides of a cell. */
  function MoveRank(d: Dir): nat {
    match d
    case Top => 0
    case Right => 1
    case Bottom => 2
    case Left => 3
  }

  function MoveIf(c: Cell, d: Dir): seq<Pos> {
    if Wall(c.walls, d) then [] else [Toward(Coords(c), d)]
  }

  /** The cells one move away from the cell at p: through its open walls, in
      the order top, right, bottom, left, computed from the coordinates the
      cell records for itself. */
  function Moves(g: Grid, p: Pos): seq<Pos>
    requires InGrid(g, p)
  {
    var c := CellAt(g, p);
    MoveIf(c, Top) + MoveIf(c, Right) + MoveIf(c, Bottom) + MoveIf(c, Left)
  }

  /** In a maze, the moves from p are exactly the cells one Step away, each
      inside the grid, listed in the order top, right, bottom, left. */
  lemma MovesSpec(g: Grid, p: Pos)
    requires IsMaze(g) && InGrid(g, p)
    ensures forall q :: q in Moves(g, p) <==> Step(g, p, q)
    ensures forall i :: 0 <= i < |Moves(g, p)| ==> InGrid(g, Moves(g, p)[i])
    ensures forall i, j :: 0 <= i < j < |Moves(g, p)| ==>
      MoveRank(DirTo(p, Moves(g, p)[i])) < MoveRank(DirTo(p, Moves(g, p)[j]))
  {
    var c := CellAt(g, p);
    assert Coords(c) == p;
    var ms := Moves(g, p);
    forall q
      ensures q in ms <==> Step(g, p, q)
    {
      if q in ms {
        var d :| d in [Top, Right, Bottom, Left] && q == Toward(p, d) && !Wall(c.walls, d);
        assert Open(g, p, d);
      }
      if Step(g, p, q) {
        assert Open(g, p, DirTo(p, q));
      }
    }
    forall i | 0 <= i < |ms|
      ensures InGrid(g, ms[i])
    {
      assert Step(g, p, ms[i]);
    }
  }

  /** Each move from p is one Step away. */
  lemma MoveIsStep(g: Grid, p: Pos, i: int)
    requires IsMaze(g) && InGrid(g, p) && 0 <= i < |Moves(g, p)|
    ensures Step(g, p, Moves(g, p)[i]) && InGrid(g, Moves(g, p)[i])
  {
    MovesSpec(g, p);
    assert Moves(g, p)[i] in Moves(g, p);
  }

  /** Everything the search knows before it takes the next path off the
      queue. dist maps each visited cell to the length of the path that put
      it on the queue; closed holds the cells whose path has been taken off
      the queue and expanded. The queue holds split paths of length front
      followed by paths of length front + 1. */
  ghost predicate Searching(g: Grid, queue: seq<seq<Pos>>, visited: set<Pos>, closed: set<Pos>,
                            dist: map<Pos, nat>, front: nat, split: nat)
  {
    && Known(g, visited, closed, dist)
    && split <= |queue|
    && (forall k :: 0 <= k < |queue| ==>
          Trail(g, queue[k], visited, dist) && |queue[k]| == if k < split then front else front + 1)
    && (forall v :: v in visited && v !in closed ==> Queued(queue, v))
    && (forall c :: c in closed ==> dist[c] <= front)
  }

  /** Facts about the visited cells that hold throughout the search. */
  ghost predicate Known(g: Grid, visited: set<Pos>, closed: set<Pos>, dist: map<Pos, nat>) {
    && |g| > 0
    && Root in visited && visited == dist.Keys && dist[Root] == 1
    && closed <= visited && (forall v :: v in visited ==> InGrid(g, v))
    && |visited| <= |g[0]| * |g|
    && Exit(g) !in closed
    && (forall c, s :: c in closed && Step(g, c, s) ==> s in visited && dist[s] <= dist[c] + 1)
  }

  /** A path on the queue: a walk from the entry without repeated cells,
      through visited cells only, ending in a cell whose recorded distance
      is the path's length. */
  ghost predicate Trail(g: Grid, p: seq<Pos>, visited: set<Pos>, dist: map<Pos, nat>) {
    && IsWalk(g, p) && p[0] == Root && Distinct(p)
    && (forall i :: 0 <= i < |p| ==> p[i] in visited)
    && Last(p) in dist && dist[Last(p)] == |p|
  }

  ghost predicate Queued(queue: seq<seq<Pos>>, v: Pos) {
    exists k :: 0 <= k < |queue| && |queue[k]| > 0 && Last(queue[k]) == v
  }

  /** The state while the moves out of the last cell of path are being
      tried: path has left the queue, its last cell is not closed yet, and
      moves[..j] have all been visited. The queue holds split paths as long
      as path followed by paths one cell longer. */
  ghost predicate Expanding(g: Grid, path: seq<Pos>, moves: seq<Pos>, j: int, queue: seq<seq<Pos>>,
                            visited: set<Pos>, closed: set<Pos>, dist: map<Pos, nat>, split: nat)
  {
    && Known(g, visited, closed, dist)
    && Trail(g, path, visited, dist) && Last(path) != Exit(g)
    && moves == Moves(g, Last(path)) && 0 <= j <= |moves|
    && split <= |queue|
    && (forall k :: 0 <= k < |queue| ==>
          Trail(g, queue[k], visited, dist) && |queue[k]| == if k < split then |path| else |path| + 1)
    && (forall v :: v in visited && v !in closed && v != Last(path) ==> Queued(queue, v))
    && (forall c :: c in closed ==> dist[c] <= |path|)
    && (forall v :: v in visited ==> dist[v] <= |path| + 1)
    && (forall i :: 0 <= i < j ==> moves[i] in visited)
  }

  lemma SubsetSize(a: set<Pos>, b: set<Pos>)
    requires a <= b
    ensures |a| <= |b|
  {
    if a != {} {
      var x :| x in a;
      SubsetSize(a - {x}, b - {x});
    }
  }

  lemma SearchStarts(g: Grid)
    requires IsMaze(g)
    ensures Searching(g, [[Root]], {Root}, {}, map[Root := 1], 1, 1)
  {
    var q := [[Root]];
    assert Last(q[0]) == Root;
  }

  /** Taking a path that does not end at the exit off the queue starts its
      expansion. */
  lemma ExpansionStarts(g: Grid, queue: seq<seq<Pos>>, visited: set<Pos>, closed: set<Pos>,
                        dist: map<Pos, nat>, front: nat, split: nat)
    requires Searching(g, queue, visited, closed, dist, front, split)
    requires |queue| > 0 && Last(queue[0]) != Exit(g)
    ensures InGrid(g, Last(queue[0]))
    ensures Expanding(g, queue[0], Moves(g, Last(queue[0])), 0, queue[1..], visited, closed, dist,
                      if split > 0 then split - 1 else |queue| - 1)
  {
    var path, rest := queue[0], queue[1..];
    var split' := if split > 0 then split - 1 else |queue| - 1;
    assert Trail(g, path, visited, dist);
    forall k | 0 <= k < |rest|
      ensures Trail(g, rest[k], visited, dist)
      ensures |rest[k]| == if k < split' then |path| else |path| + 1
    {
      assert rest[k] == queue[k + 1];
    }
    forall v | v in visited && v !in closed && v != Last(path)
      ensures Queued(rest, v)
    {
      var k :| 0 <= k < |queue| && |queue[k]| > 0 && Last(queue[k]) == v;
      assert rest[k - 1] == queue[k];
    }
    forall v | v in visited
      ensures dist[v] <= |path| + 1
    {
      if v !in closed {
        var k :| 0 <= k < |queue| && |queue[k]| > 0 && Last(queue[k]) == v;
        assert Trail(g, queue[k], visited, dist);
      }
    }
  }

  /** The visited cells together with one more cell of the grid are no
      more than the grid holds. */
  lemma RoomFor(g: Grid, visited: set<Pos>, n: Pos)
    requires IsMaze(g) && InGrid(g, n)
    requires forall v :: v in visited ==> InGrid(g, v)
    ensures |visited + {n}| <= |g[0]| * |g|
  {
    var all := AllCells(|g[0]|, |g|);
    assert visited + {n} <= all;
    SubsetSize(visited + {n}, all);
    AllCellsCount(|g[0]|, |g|);
  }

  /** Visiting a new cell n of the grid at distance d keeps what is known
      about the visited cells. */
  lemma VisitKeepsKnown(g: Grid, visited: set<Pos>, closed: set<Pos>, dist: map<Pos, nat>, n: Pos, d: nat)
    requires Known(g, visited, closed, dist)
    requires InGrid(g, n) && n !in visited && |visited + {n}| <= |g[0]| * |g|
    ensures Known(g, visited + {n}, closed, dist[n := d])
  {
  }

  /** A trail stays a trail when a new cell is visited. */
  lemma VisitKeepsTrail(g: Grid, p: seq<Pos>, visited: set<Pos>, dist: map<Pos, nat>, n: Pos, d: nat)
    requires Trail(g, p, visited, dist) && n !in visited && visited == dist.Keys
    ensures Trail(g, p, visited + {n}, dist[n := d])
  {
  }

  /** A trail extended by one Step to a cell not yet visited is a trail once
      that cell is visited at distance one more than the trail's length. */
  lemma ExtendTrail(g: Grid, path: seq<Pos>, visited: set<Pos>, dist: map<Pos, nat>, n: Pos)
    requires Trail(g, path, visited, dist)
    requires Step(g, Last(path), n) && n !in visited
    ensures Trail(g, path + [n], visited + {n}, dist[n := |path| + 1])
  {
    var p := path + [n];
    forall i | 0 <= i < |p| - 1
      ensures Step(g, p[i], p[i + 1])
    {
      if i < |path| - 1 {
        assert Step(g, path[i], path[i + 1]);
      }
    }
  }

  /** Appending the trail p, one cell longer than the expanded path, to a
      queue of trails keeps every entry a trail of the right length once
      p's last cell n is visited. */
  lemma QueueGrows(g: Grid, queue: seq<seq<Pos>>, p: seq<Pos>, visited: set<Pos>, dist: map<Pos, nat>,
                   n: Pos, d: nat, len: nat, split: nat)
    requires visited == dist.Keys && n !in visited && split <= |queue| && |p| == len + 1
    requires forall k :: 0 <= k < |queue| ==>
               Trail(g, queue[k], visited, dist) && |queue[k]| == if k < split then len else len + 1
    requires Trail(g, p, visited + {n}, dist[n := d])
    ensures forall k :: 0 <= k < |queue + [p]| ==>
              && Trail(g, (queue + [p])[k], visited + {n}, dist[n := d])
              && |(queue + [p])[k]| == if k < split then len else len + 1
  {
    var queue' := queue + [p];
    forall k | 0 <= k < |queue'|
      ensures Trail(g, queue'[k], visited + {n}, dist[n := d])
      ensures |queue'[k]| == if k < split then len else len + 1
    {
      if k < |queue| {
        assert queue'[k] == queue[k];
        VisitKeepsTrail(g, queue[k], visited, dist, n, d);
      }
    }
  }

  /** Appending a path that ends at the newly visited cell n keeps every
      visited cell that is neither closed nor c at the end of a queued
      path. */
  lemma QueuedGrows(queue: seq<seq<Pos>>, p: seq<Pos>, visited: set<Pos>, closed: set<Pos>, c: Pos, n: Pos)
    requires forall v :: v in visited && v !in closed && v != c ==> Queued(queue, v)
    requires |p| > 0 && Last(p) == n
    ensures forall v :: v in visited + {n} && v !in closed && v != c ==> Queued(queue + [p], v)
  {
    var queue' := queue + [p];
    forall v | v in visited + {n} && v !in closed && v != c
      ensures Queued(queue', v)
    {
      if v == n {
        assert Last(queue'[|queue|]) == v;
      } else {
        var k :| 0 <= k < |queue| && |queue[k]| > 0 && Last(queue[k]) == v;
        assert queue'[k] == queue[k];
      }
    }
  }

  /** Recording distance len + 1 for a newly visited cell keeps the
      distance bounds of the closed and of the visited cells. */
  lemma VisitKeepsBounds(n: Pos, visited: set<Pos>, closed: set<Pos>, dist: map<Pos, nat>, len: nat)
    requires n !in visited && closed <= visited && visited == dist.Keys
    requires forall c :: c in closed ==> dist[c] <= len
    requires forall v :: v in visited ==> dist[v] <= len + 1
    ensures forall c :: c in closed ==> dist[n := len + 1][c] <= len
    ensures forall v :: v in visited + {n} ==> dist[n := len + 1][v] <= len + 1
  {
  }

  /** Visiting the unvisited cell moves[j] and queueing the path extended by
      it keeps the expansion going. */
  lemma ExpansionVisits(g: Grid, path: seq<Pos>, moves: seq<Pos>, j: int, queue: seq<seq<Pos>>,
                        visited: set<Pos>, closed: set<Pos>, dist: map<Pos, nat>, split: nat)
    requires Expanding(g, path, moves, j, queue, visited, closed, dist, split)
    requires j < |moves| && moves[j] !in visited
    requires Step(g, Last(path), moves[j]) && |visited + {moves[j]}| <= |g[0]| * |g|
    ensures Expanding(g, path, moves, j + 1, queue + [path + [moves[j]]], visited + {moves[j]},
                      closed, dist[moves[j] := |path| + 1], split)
  {
    var n := moves[j];
    VisitKeepsKnown(g, visited, closed, dist, n, |path| + 1);
    VisitKeepsTrail(g, path, visited, dist, n, |path| + 1);
    ExtendTrail(g, path, visited, dist, n);
    QueueGrows(g, queue, path + [n], visited, dist, n, |path| + 1, |path|, split);
    QueuedGrows(queue, path + [n], visited, closed, Last(path), n);
    VisitKeepsBounds(n, visited, closed, dist, |path|);
  }

  /** Skipping the already visited cell moves[j] keeps the expansion going. */
  lemma ExpansionSkips(g: Grid, path: seq<Pos>, moves: seq<Pos>, j: int, queue: seq<seq<Pos>>,
                       visited: set<Pos>, closed: set<Pos>, dist: map<Pos, nat>, split: nat)
    requires Expanding(g, path, moves, j, queue, visited, closed, dist, split)
    requires j < |moves| && moves[j] in visited
    ensures Expanding(g, path, moves, j + 1, queue, visited, closed, dist, split)
  {
  }

  /** Once every move has been tried, the path's last cell is closed and the
      search invariant holds again, with the path's length as the front. */
  lemma ExpansionEnds(g: Grid, path: seq<Pos>, moves: seq<Pos>, queue: seq<seq<Pos>>,
                      visited: set<Pos>, closed: set<Pos>, dist: map<Pos, nat>, split: nat)
    requires IsMaze(g) && Expanding(g, path, moves, |moves|, queue, visited, closed, dist, split)
    ensures Searching(g, queue, visited, closed + {Last(path)}, dist, |path|, split)
  {
    var c := Last(path);
    var closed' := closed + {c};
    MovesSpec(g, c);
    forall a, s | a in closed' && Step(g, a, s)
      ensures s in visited && dist[s] <= dist[a] + 1
    {
      if a == c {
        assert s in moves;
        var i :| 0 <= i < |moves| && moves[i] == s;
      }
    }
    assert Known(g, visited, closed', dist);
  }

  /** Along any walk from the entry, either some cell is visited but not
      closed and has recorded distance at most its position plus one, or the
      walk's n-th cell is closed with recorded distance at most n. */
  lemma {:induction false} WalkMeetsFrontier(g: Grid, visited: set<Pos>, closed: set<Pos>, dist: map<Pos, nat>, w: seq<Pos>, n: nat)
    requires Known(g, visited, closed, dist)
    requires IsWalk(g, w) && w[0] == Root && 1 <= n <= |w|
    ensures || (exists i :: 0 <= i < n && w[i] in visited && w[i] !in closed && dist[w[i]] <= i + 1)
            || (w[n - 1] in closed && dist[w[n - 1]] <= n)
  {
    if n > 1 {
      WalkMeetsFrontier(g, visited, closed, dist, w, n - 1);
      if w[n - 2] in closed && dist[w[n - 2]] <= n - 1 {
        assert Step(g, w[n - 2], w[n - 1]);
        if w[n - 1] !in closed {
          assert w[n - 1] in visited && dist[w[n - 1]] <= n;
        }
      }
    }
  }

  /** When the path at the front of the queue ends at the exit, it is a
      route without repeated cells and no route is shorter. */
  lemma FrontIsShortest(g: Grid, queue: seq<seq<Pos>>, visited: set<Pos>, closed: set<Pos>,
                        dist: map<Pos, nat>, front: nat, split: nat)
    requires Searching(g, queue, visited, closed, dist, front, split)
    requires |queue| > 0 && Last(queue[0]) == Exit(g)
    ensures IsRoute(g, queue[0]) && Distinct(queue[0])
    ensures forall w :: IsRoute(g, w) ==> |queue[0]| <= |w|
  {
    assert Trail(g, queue[0], visited, dist);
    forall w | IsRoute(g, w)
      ensures |queue[0]| <= |w|
    {
      WalkMeetsFrontier(g, visited, closed, dist, w, |w|);
      var i :| 0 <= i < |w| && w[i] in visited && w[i] !in closed && dist[w[i]] <= i + 1;
      var k :| 0 <= k < |queue| && |queue[k]| > 0 && Last(queue[k]) == w[i];
      assert Trail(g, queue[k], visited, dist);
    }
  }

  /** When the queue runs empty, every visited cell is closed, so no walk
      from the entry leaves the closed cells, and none reaches the exit. */
  lemma ExhaustedMeansUnsolvable(g: Grid, visited: set<Pos>, closed: set<Pos>, dist: map<Pos, nat>,
                                 front: nat, split: nat)
    requires Searching(g, [], visited, closed, dist, front, split)
    ensures !Solvable(g)
  {
    if Solvable(g) {
      var w :| IsRoute(g, w);
      WalkMeetsFrontier(g, visited, closed, dist, w, |w|);
      assert false;
    }
  }

  /** Breadth-first search from the entry cell: the paths on the queue grow
      one cell at a time, and the first one to end at the exit is returned.
      It is a route with no repeated cell and no route is shorter; the
      result is None exactly when no route exists. */
  method SolveMaze(g: Grid) returns (r: Option<seq<Pos>>)
    requires IsMaze(g)
    ensures r.Some? ==> IsRoute(g, r.value) && Distinct(r.value)
    ensures r.Some? ==> forall w :: IsRoute(g, w) ==> |r.value| <= |w|
    ensures r.None? <==> !Solvable(g)
  {
    var queue := [[Root]];
    var visited := {Root};
    ghost var closed: set<Pos> := {};
    ghost var dist: map<Pos, nat> := map[Root := 1];
    ghost var front: nat, split: nat := 1, 1;
    SearchStarts(g);
    while |queue| > 0
      invariant Searching(g, queue, visited, closed, dist, front, split)
      decreases |g[0]| * |g| - |visited| + |queue|
    {
      ghost var queue0 := queue;
      var path := queue[0];
      queue := queue[1..];
      var cell := path[|path| - 1];
      if cell == Exit(g) {
        FrontIsShortest(g, queue0, visited, closed, dist, front, split);
        return Some(path);
      }
      ExpansionStarts(g, queue0, visited, closed, dist, front, split);
      split := if split > 0 then split - 1 else |queue|;
      var moves := Moves(g, cell);
      ghost var measure := |g[0]| * |g| - |visited| + |queue|;
      for j := 0 to |moves|
        invariant Expanding(g, path, moves, j, queue, visited, closed, dist, split)
        invariant |g[0]| * |g| - |visited| + |queue| == measure
      {
        var n := moves[j];
        if n in visited {
          ExpansionSkips(g, path, moves, j, queue, visited, closed, dist, split);
          continue;
        }
        MoveIsStep(g, cell, j);
        RoomFor(g, visited, n);
        ExpansionVisits(g, path, moves, j, queue, visited, closed, dist, split);
        visited := visited + {n};
        dist := dist[n := |path| + 1];
        queue := queue + [path + [n]];
      }
      ExpansionEnds(g, path, moves, queue, visited, closed, dist, split);
      closed := closed + {cell};
      front := |path|;
    }
    ExhaustedMeansUnsolvable(g, visited, closed, dist, front, split);
    return None;
  }

  /** In a one-cell maze the entry is the exit, and the only shortest route
      is the entry cell alone. */
  lemma SingleCellRoute(g: Grid, w: seq<Pos>)
    requires |g| == 1 && |g[0]| == 1
    requires IsRoute(g, w) && forall v :: IsRoute(g, v) ==> |w| <= |v|
    ensures w == [Root]
  {
    assert IsRoute(g, [Root]);
  }

  /** Every maze the generator can return is one the solver runs on, and it
      has a route: the solver never returns None on it. */
  lemma GeneratedMazeIsSolvable(g: Grid, tree: seq<Edge>, cols: int, rows: int)
    requires cols >= 1 && rows >= 1 && Shaped(g, cols, rows)
    requires IsSpanningTree(tree, cols, rows) && Passages(g, tree)
    ensures IsMaze(g) && Solvable(g)
  {
    PassagesAreSymmetric(g, tree);
    SpanningTreeConnects(g, tree, cols, rows);
    assert InGrid(g, Exit(g));
    var w :| IsWalk(g, w) && w[0] == Root && w[|w| - 1] == Exit(g);
    assert IsRoute(g, w);
  }
}
