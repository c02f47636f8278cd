/** The grid, its cells and the snapshot helpers shared by the four search
    engines of app/utils/PathingAlgorithms.tsx. Every engine deep-copies the
    last snapshot, writes at most one cell of the copy and pushes it; a grid
    here is a value, so a copy is the value itself and a write is `Paint`. */
module Grids {

  /** `CellType`. */
  datatype Cell = Empty | Wall | Start | Goal | Path | Visited | Current | Frontier

  /** `Position`; also used for the direction offsets `[dr, dc]`. */
  datatype Pos = Pos(row: int, col: int)

  /** `CellType[][]`, indexed `grid[row][col]`. */
  type Grid = seq<seq<Cell>>

  /** `PathResult`. */
  datatype PathResult = PathResult(steps: seq<Grid>, pathFound: bool)

  /** One call `computeXSteps(grid, startPosition, goalPosition, rows, cols)`. */
  datatype Search = Search(grid: Grid, start: Pos, goal: Pos, rows: int, cols: int)

  predicate InBounds(p: Pos, rows: int, cols: int) {
    0 <= p.row < rows && 0 <= p.col < cols
  }

  /** `g` has `rows` rows of `cols` cells each. */
  predicate Shaped(g: Grid, rows: int, cols: int) {
    |g| == rows && forall r :: 0 <= r < |g| ==> |g[r]| == cols
  }

  /** `p` names a cell of `g`. */
  predicate Within(g: Grid, p: Pos) {
    0 <= p.row < |g| && 0 <= p.col < |g[p.row]|
  }

  function At(g: Grid, p: Pos): Cell
    requires Within(g, p)
  {
    g[p.row][p.col]
  }

  /** What every engine demands of its call: the grid has the announced shape
      and the start names one of its cells (the first frontier snapshot reads
      `frontierGrid[row][col]` at the start, which fails outside the grid). */
  predicate Valid(q: Search) {
    q.rows >= 0 && q.cols >= 0 && Shaped(q.grid, q.rows, q.cols) && InBounds(q.start, q.rows, q.cols)
  }

  /** `g` with the cell at `p` set to `c`. */
  function Paint(g: Grid, p: Pos, c: Cell): (r: Grid)
    requires Within(g, p)
    ensures |r| == |g| && (forall i :: 0 <= i < |g| ==> |r[i]| == |g[i]|)
    ensures At(r, p) == c
    ensures forall x :: Within(g, x) && x != p ==> At(r, x) == At(g, x)
  {
    g[p.row := g[p.row][p.col := c]]
  }

  lemma {:induction false} PaintShaped(g: Grid, p: Pos, c: Cell, rows: int, cols: int)
    requires Shaped(g, rows, cols) && Within(g, p)
    ensures Shaped(Paint(g, p, c), rows, cols)
  {
  }

  /** The two cell values that are never repainted: "except start/goal". */
  predicate Fixed(c: Cell) {
    c == Start || c == Goal
  }

  /** The cells `updateFrontier` may turn into `frontier`. */
  predicate Eligible(c: Cell) {
    c != Start && c != Goal && c != Current && c != Visited
  }

  function Last(steps: seq<Grid>): Grid
    requires |steps| > 0
  {
    steps[|steps| - 1]
  }

  /** Every snapshot has the grid's shape. */
  predicate AllShaped(steps: seq<Grid>, rows: int, cols: int) {
    forall k :: 0 <= k < |steps| ==> Shaped(steps[k], rows, cols)
  }

  /** Copy the last snapshot, mark `p` with `c` unless it holds start or goal,
      and push the copy only when it was marked (the "current" and "visited"
      snapshots of an expansion). */
  function Mark(steps: seq<Grid>, p: Pos, c: Cell): (r: seq<Grid>)
    requires |steps| > 0 && Within(Last(steps), p)
    ensures |r| > 0 && Within(Last(r), p)
  {
    var g := Last(steps);
    if Fixed(At(g, p)) then steps else steps + [Paint(g, p, c)]
  }

  /** `p` is marked with `c` in `g`, unless it holds start or goal. */
  function PaintUnlessFixed(g: Grid, p: Pos, c: Cell): (r: Grid)
    requires Within(g, p)
    ensures |r| == |g| && (forall i :: 0 <= i < |g| ==> |r[i]| == |g[i]|)
  {
    if Fixed(At(g, p)) then g else Paint(g, p, c)
  }

  // ------------------------------------------------------------ frontier

  /** Every position of `ps` names a cell of `g`. */
  predicate AllWithin(g: Grid, ps: seq<Pos>) {
    forall i :: 0 <= i < |ps| ==> Within(g, ps[i])
  }

  /** `updateFrontier`'s copy of `g`: each listed position, in list order,
      becomes `frontier` when it is not start, goal, current or visited. */
  function FrontierOf(g: Grid, ps: seq<Pos>): (r: Grid)
    requires AllWithin(g, ps)
    ensures |r| == |g| && (forall i :: 0 <= i < |g| ==> |r[i]| == |g[i]|)
    decreases |ps|
  {
    if ps == [] then g
    else
      var g' := if Eligible(At(g, ps[0])) then Paint(g, ps[0], Frontier) else g;
      FrontierOf(g', ps[1..])
  }

  /** The frontier snapshot cell by cell: a cell turns into `frontier` exactly
      when some listed position names it and it was eligible; the order and
      the repetitions of the list do not matter. */
  lemma {:induction false} FrontierCells(g: Grid, ps: seq<Pos>, x: Pos)
    requires AllWithin(g, ps) && Within(g, x)
    ensures At(FrontierOf(g, ps), x) == if x in ps && Eligible(At(g, x)) then Frontier else At(g, x)
    decreases |ps|
  {
    if ps != [] {
      var g' := if Eligible(At(g, ps[0])) then Paint(g, ps[0], Frontier) else g;
      assert AllWithin(g', ps[1..]) by {
        forall i | 0 <= i < |ps[1..]| ensures Within(g', ps[1..][i]) {
          assert Within(g, ps[i + 1]);
        }
      }
      FrontierCells(g', ps[1..], x);
      assert x in ps <==> x == ps[0] || x in ps[1..] by {
        assert ps == [ps[0]] + ps[1..];
      }
    }
  }

  /** The loop of `updateFrontier` over the open list, on a copy of the last snapshot. */
  method MarkFrontier(g: Grid, ps: seq<Pos>) returns (r: Grid)
    requires AllWithin(g, ps)
    ensures r == FrontierOf(g, ps)
  {
    r := g;
    var k := 0;
    while k < |ps|
      invariant 0 <= k <= |ps|
      invariant |r| == |g| && (forall i :: 0 <= i < |g| ==> |r[i]| == |g[i]|)
      invariant FrontierOf(r, ps[k..]) == FrontierOf(g, ps)
    {
      assert ps[k..] == [ps[k]] + ps[k + 1..];
      assert Within(r, ps[k]);
      if Eligible(At(r, ps[k])) {
        r := Paint(r, ps[k], Frontier);
      }
      k := k + 1;
    }
  }

  // ------------------------------------------------------------ the path

  /** The snapshots the path loop pushes for `path[i..|path| - 1)`: each copies
      the last snapshot and turns one interior cell of the path into `path`. */
  function PathRun(steps: seq<Grid>, path: seq<Pos>, i: nat): (r: seq<Grid>)
    requires |steps| > 0 && AllWithin(Last(steps), path)
    ensures |r| == |steps| + (if i < |path| - 1 then |path| - 1 - i else 0)
    decreases |path| - i
  {
    if i + 1 >= |path| then steps
    else
      var g := PaintUnlessFixed(Last(steps), path[i], Path);
      assert AllWithin(g, path) by {
        forall t | 0 <= t < |path| ensures Within(g, path[t]) {
          assert Within(Last(steps), path[t]);
        }
      }
      PathRun(steps + [g], path, i + 1)
  }

  /** What the search loop hands over (`steps`, `pathFound`, `finalPath`). */
  datatype Outcome = Outcome(steps: seq<Grid>, found: bool, path: seq<Pos>)

  /** `steps` once the path has been drawn: nothing is added when no path was found. */
  function Finish(o: Outcome): (r: seq<Grid>)
    requires |o.steps| > 0 && AllWithin(Last(o.steps), o.path)
  {
    if o.found && |o.path| > 0 then PathRun(o.steps, o.path, 1) else o.steps
  }

  /** The path snapshots, one per interior cell of the path, each differing from
      the one before at most in that cell, which becomes `path` unless it is
      start or goal; the search snapshots stay in front. */
  lemma {:induction false} PathRunCells(steps: seq<Grid>, path: seq<Pos>, i: nat)
    requires |steps| > 0 && AllWithin(Last(steps), path) && 1 <= i
    ensures var r := PathRun(steps, path, i);
            r[..|steps|] == steps &&
            forall t :: i <= t < |path| - 1 ==>
              Within(r[|steps| + t - i - 1], path[t]) &&
              r[|steps| + t - i] == PaintUnlessFixed(r[|steps| + t - i - 1], path[t], Path)
    decreases |path| - i
  {
    if i + 1 < |path| {
      var g := PaintUnlessFixed(Last(steps), path[i], Path);
      assert AllWithin(g, path) by {
        forall t | 0 <= t < |path| ensures Within(g, path[t]) {
          assert Within(Last(steps), path[t]);
        }
      }
      PathRunCells(steps + [g], path, i + 1);
      var r := PathRun(steps, path, i);
      assert r == PathRun(steps + [g], path, i + 1);
      assert r[..|steps| + 1] == steps + [g];
      assert r[..|steps|] == (steps + [g])[..|steps|];
    }
  }

  /** The path loop `for (i = 1; i < finalPath.length - 1; i++)`. */
  method DrawPath(steps: seq<Grid>, path: seq<Pos>) returns (r: seq<Grid>)
    requires |steps| > 0 && AllWithin(Last(steps), path)
    ensures r == PathRun(steps, path, 1)
  {
    r := steps;
    var i := 1;
    while i < |path| - 1
      invariant 1 <= i && |r| > 0 && AllWithin(Last(r), path)
      invariant PathRun(r, path, i) == PathRun(steps, path, 1)
    {
      var g := Last(r);
      assert Within(g, path[i]);
      if !Fixed(At(g, path[i])) {
        g := Paint(g, path[i], Path);
      }
      assert g == PaintUnlessFixed(Last(r), path[i], Path);
      assert AllWithin(g, path) by {
        forall t | 0 <= t < |path| ensures Within(g, path[t]) {
          assert Within(Last(r), path[t]);
        }
      }
      r := r + [g];
      i := i + 1;
    }
  }
}
