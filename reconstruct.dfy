/** `reconstructPathSteps` of app/utils/PathingAlgorithms.tsx: follow a
    `cameFrom` map back from the goal, clear "current" markers from a base
    grid, and record one snapshot per path cell, from the first to the goal. */
module PathReconstruction {
  import opened Grids

  /** Every position lies on the `rows` x `cols` board. */
  predicate OnBoard(path: seq<Pos>, rows: int, cols: int) {
    forall i :: 0 <= i < |path| ==> InBounds(path[i], rows, cols)
  }

  /** Each position after the first was reached from the one before it. */
  predicate Chain(cameFrom: map<Pos, Pos>, path: seq<Pos>) {
    forall i :: 1 <= i < |path| ==> path[i] in cameFrom && cameFrom[path[i]] == path[i - 1]
  }

  /** The `while (true)` loop: `cur` is put in front of `path`; the walk stops
      at a position with no predecessor, or once the path is longer than
      `cap` (`rows * cols`), after stepping back but before recording the
      predecessor. */
  function Backtrack(cameFrom: map<Pos, Pos>, cur: Pos, path: seq<Pos>, cap: int): (r: seq<Pos>)
    ensures |r| > |path|
    decreases cap - |path|
  {
    var path' := [cur] + path;
    if cur !in cameFrom then path'
    else if |path'| > cap then path'
    else Backtrack(cameFrom, cameFrom[cur], path', cap)
  }

  /** The walk ends with the positions it started from, every step of it
      follows `cameFrom`, and it stops at a position without predecessor or
      beyond the length bound. */
  lemma {:induction false} BacktrackChain(cameFrom: map<Pos, Pos>, cur: Pos, path: seq<Pos>, cap: int)
    requires Chain(cameFrom, [cur] + path)
    ensures var r := Backtrack(cameFrom, cur, path, cap);
            |r| > |path| && r[|r| - |path| - 1..] == [cur] + path && Chain(cameFrom, r) &&
            (r[0] !in cameFrom || |r| > cap)
    decreases cap - |path|
  {
    var path' := [cur] + path;
    if cur in cameFrom && |path'| <= cap {
      var next := cameFrom[cur];
      assert Chain(cameFrom, [next] + path') by {
        var t := [next] + path';
        forall i | 1 <= i < |t| ensures t[i] in cameFrom && cameFrom[t[i]] == t[i - 1] {
          if i > 1 {
            assert t[i] == path'[i - 1] && t[i - 1] == path'[i - 2];
          }
        }
      }
      BacktrackChain(cameFrom, next, path', cap);
      var r := Backtrack(cameFrom, next, path', cap);
      assert r[|r| - |path| - 1..] == r[|r| - |path'| - 1..][1..];
    }
  }

  /** The walk holds at most `cap + 1` positions (one when `cap` is below 1). */
  lemma {:induction false} BacktrackBound(cameFrom: map<Pos, Pos>, cur: Pos, path: seq<Pos>, cap: int)
    requires |path| <= if cap < 0 then 0 else cap
    ensures |Backtrack(cameFrom, cur, path, cap)| <= if cap < 0 then 1 else cap + 1
    decreases cap - |path|
  {
    if cur in cameFrom && |[cur] + path| <= cap {
      BacktrackBound(cameFrom, cameFrom[cur], [cur] + path, cap);
    }
  }

  /** A walk from an on-board position through on-board predecessors stays on
      the board. */
  lemma {:induction false} BacktrackOnBoard(cameFrom: map<Pos, Pos>, cur: Pos, path: seq<Pos>, cap: int, rows: int, cols: int)
    requires InBounds(cur, rows, cols) && OnBoard(path, rows, cols)
    requires forall p :: p in cameFrom ==> InBounds(cameFrom[p], rows, cols)
    ensures OnBoard(Backtrack(cameFrom, cur, path, cap), rows, cols)
    decreases cap - |path|
  {
    if cur in cameFrom && |[cur] + path| <= cap {
      BacktrackOnBoard(cameFrom, cameFrom[cur], [cur] + path, cap, rows, cols);
    }
  }

  /** The base grid with every "current" marker turned into "visited". */
  function Cleared(g: Grid): (r: Grid)
    ensures |r| == |g| && forall i :: 0 <= i < |g| ==> |r[i]| == |g[i]|
  {
    seq(|g|, i requires 0 <= i < |g| =>
      seq(|g[i]|, j requires 0 <= j < |g[i]| => if g[i][j] == Current then Visited else g[i][j]))
  }

  /** No cell of the cleared grid is "current", and every cell that was not
      "current" keeps its value. */
  lemma {:induction false} ClearedCells(g: Grid, x: Pos)
    requires Within(g, x)
    ensures Within(Cleared(g), x) && At(Cleared(g), x) != Current
    ensures At(g, x) != Current ==> At(Cleared(g), x) == At(g, x)
    ensures At(g, x) == Current ==> At(Cleared(g), x) == Visited
  {
  }

  /** The path loop: for each position in turn, a copy of the previous grid
      with that cell marked "path" unless it holds start or goal. */
  function Trail(g: Grid, path: seq<Pos>): (r: seq<Grid>)
    requires AllWithin(g, path)
    ensures |r| == |path|
    decreases |path|
  {
    if path == [] then []
    else
      var g' := PaintUnlessFixed(g, path[0], Path);
      assert AllWithin(g', path[1..]) by {
        forall i | 0 <= i < |path[1..]| ensures Within(g', path[1..][i]) {
          assert Within(g, path[i + 1]);
        }
      }
      [g'] + Trail(g', path[1..])
  }

  /** Snapshot `i` of the trail, cell by cell: a cell is "path" exactly when
      it is among the first `i + 1` path positions and did not hold start or
      goal; every other cell keeps its value. */
  lemma {:induction false} TrailCells(g: Grid, path: seq<Pos>, i: int, x: Pos)
    requires AllWithin(g, path) && 0 <= i < |path| && Within(g, x)
    ensures Within(Trail(g, path)[i], x)
    ensures At(Trail(g, path)[i], x) == if x in path[..i + 1] && !Fixed(At(g, x)) then Path else At(g, x)
    decreases |path|
  {
    var g' := PaintUnlessFixed(g, path[0], Path);
    assert At(g', x) == if x == path[0] && !Fixed(At(g, x)) then Path else At(g, x);
    if i > 0 {
      assert AllWithin(g', path[1..]) by {
        forall k | 0 <= k < |path[1..]| ensures Within(g', path[1..][k]) {
          assert Within(g, path[k + 1]);
        }
      }
      TrailCells(g', path[1..], i - 1, x);
      assert path[..i + 1] == [path[0]] + path[1..][..i];
    }
  }

  /** `reconstructPathSteps(cameFrom, goal, baseGrid, rows, cols)`. */
  function ReconstructPath(cameFrom: map<Pos, Pos>, goal: Pos, baseGrid: Grid, rows: int, cols: int): seq<Grid>
    requires Shaped(baseGrid, rows, cols) && InBounds(goal, rows, cols)
    requires forall p :: p in cameFrom ==> InBounds(cameFrom[p], rows, cols)
  {
    if |cameFrom| == 0 then []
    else
      var path := Backtrack(cameFrom, goal, [], rows * cols);
      BacktrackOnBoard(cameFrom, goal, [], rows * cols, rows, cols);
      Trail(Cleared(baseGrid), path)
  }

  /** An empty map yields no snapshots. Otherwise the walk back from the goal
      ends at the goal, follows `cameFrom` at every step, begins at a
      position without predecessor unless it was cut at `rows * cols + 1`
      positions, stays on the board, and there is one snapshot per position
      on it. */
  lemma {:induction false} ReconstructWalk(cameFrom: map<Pos, Pos>, goal: Pos, baseGrid: Grid, rows: int, cols: int)
    requires Shaped(baseGrid, rows, cols) && InBounds(goal, rows, cols)
    requires forall p :: p in cameFrom ==> InBounds(cameFrom[p], rows, cols)
    ensures var r := ReconstructPath(cameFrom, goal, baseGrid, rows, cols);
            var path := Backtrack(cameFrom, goal, [], rows * cols);
            (|cameFrom| == 0 ==> r == []) &&
            (|cameFrom| > 0 ==>
               |r| == |path| && |path| <= rows * cols + 1 && path[|path| - 1] == goal && Chain(cameFrom, path) &&
               (path[0] !in cameFrom || |path| > rows * cols) && OnBoard(path, rows, cols))
  {
    if |cameFrom| > 0 {
      var _ := BacktrackWalk(cameFrom, goal, rows, cols);
    }
  }

  /** The walk back from an on-board goal. */
  lemma {:induction false} BacktrackWalk(cameFrom: map<Pos, Pos>, goal: Pos, rows: int, cols: int) returns (path: seq<Pos>)
    requires InBounds(goal, rows, cols)
    requires forall p :: p in cameFrom ==> InBounds(cameFrom[p], rows, cols)
    ensures path == Backtrack(cameFrom, goal, [], rows * cols)
    ensures |path| <= rows * cols + 1 && path[|path| - 1] == goal && Chain(cameFrom, path) &&
            (path[0] !in cameFrom || |path| > rows * cols) && OnBoard(path, rows, cols)
  {
    path := Backtrack(cameFrom, goal, [], rows * cols);
    BacktrackChain(cameFrom, goal, [], rows * cols);
    BacktrackBound(cameFrom, goal, [], rows * cols);
    BacktrackOnBoard(cameFrom, goal, [], rows * cols, rows, cols);
  }

  /** Snapshot `i`, cell by cell: no cell is "current"; a cell is "path"
      exactly when it is among the first `i + 1` positions of the walk and did
      not hold start or goal; every other cell is as in the base grid with
      "current" turned into "visited". */
  lemma {:induction false} ReconstructCells(cameFrom: map<Pos, Pos>, goal: Pos, baseGrid: Grid, rows: int, cols: int, i: int, x: Pos)
    requires Shaped(baseGrid, rows, cols) && InBounds(goal, rows, cols)
    requires forall p :: p in cameFrom ==> InBounds(cameFrom[p], rows, cols)
    requires 0 <= i < |ReconstructPath(cameFrom, goal, baseGrid, rows, cols)| && InBounds(x, rows, cols)
    ensures var r := ReconstructPath(cameFrom, goal, baseGrid, rows, cols);
            var path := Backtrack(cameFrom, goal, [], rows * cols);
            |path| == |r| && Within(r[i], x) && At(r[i], x) != Current &&
            At(r[i], x) == if x in path[..i + 1] && !Fixed(At(baseGrid, x)) then Path else At(Cleared(baseGrid), x)
  {
    var path := Backtrack(cameFrom, goal, [], rows * cols);
    BacktrackOnBoard(cameFrom, goal, [], rows * cols, rows, cols);
    var c := Cleared(baseGrid);
    ClearedCells(baseGrid, x);
    assert Fixed(At(c, x)) == Fixed(At(baseGrid, x));
    TrailCells(c, path, i, x);
  }

  // ------------------------------------------------------------ the imperative version

  /** The backtracking loop. */
  method BacktrackPath(cameFrom: map<Pos, Pos>, goal: Pos, rows: int, cols: int) returns (shortestPath: seq<Pos>)
    ensures shortestPath == Backtrack(cameFrom, goal, [], rows * cols)
  {
    shortestPath := [];
    var currentPos := goal;
    while true
      invariant Backtrack(cameFrom, currentPos, shortestPath, rows * cols) == Backtrack(cameFrom, goal, [], rows * cols)
      invariant shortestPath == [] || |shortestPath| <= rows * cols
      decreases rows * cols + 1 - |shortestPath|
    {
      shortestPath := [currentPos] + shortestPath;
      if currentPos !in cameFrom {
        break;
      }
      currentPos := cameFrom[currentPos];
      if |shortestPath| > rows * cols {
        break;
      }
    }
  }

  /** The nested loops resetting "current" markers to "visited". */
  method ClearCurrent(g: Grid, rows: int, cols: int) returns (r: Grid)
    requires Shaped(g, rows, cols)
    ensures r == Cleared(g)
  {
    r := g;
    for row := 0 to rows
      invariant Shaped(r, rows, cols)
      invariant forall i :: 0 <= i < row ==> r[i] == Cleared(g)[i]
      invariant forall i :: row <= i < rows ==> r[i] == g[i]
    {
      assert |r[row]| == cols;
      for col := 0 to cols
        invariant Shaped(r, rows, cols)
        invariant forall i :: 0 <= i < row ==> r[i] == Cleared(g)[i]
        invariant forall i :: row < i < rows ==> r[i] == g[i]
        invariant forall j :: 0 <= j < col ==> r[row][j] == Cleared(g)[row][j]
        invariant forall j :: col <= j < cols ==> r[row][j] == g[row][j]
      {
        if r[row][col] == Current {
          r := r[row := r[row][col := Visited]];
        }
      }
      assert r[row] == Cleared(g)[row];
    }
  }

  /** The path loop. */
  method DrawTrail(g: Grid, path: seq<Pos>) returns (pathSteps: seq<Grid>)
    requires AllWithin(g, path)
    ensures pathSteps == Trail(g, path)
  {
    pathSteps := [];
    var currentGrid := g;
    for i := 0 to |path|
      invariant |currentGrid| == |g| && forall k :: 0 <= k < |g| ==> |currentGrid[k]| == |g[k]|
      invariant AllWithin(currentGrid, path[i..])
      invariant pathSteps + Trail(currentGrid, path[i..]) == Trail(g, path)
    {
      var newGrid := currentGrid;
      var p := path[i];
      if At(newGrid, p) != Start && At(newGrid, p) != Goal {
        newGrid := Paint(newGrid, p, Path);
      }
      assert path[i..][1..] == path[i + 1..];
      pathSteps := pathSteps + [newGrid];
      currentGrid := newGrid;
    }
  }

  /** `reconstructPathSteps`, step by step as the source runs it. */
  method ReconstructPathSteps(cameFrom: map<Pos, Pos>, goal: Pos, baseGrid: Grid, rows: int, cols: int)
    returns (pathSteps: seq<Grid>)
    requires Shaped(baseGrid, rows, cols) && InBounds(goal, rows, cols)
    requires forall p :: p in cameFrom ==> InBounds(cameFrom[p], rows, cols)
    ensures pathSteps == ReconstructPath(cameFrom, goal, baseGrid, rows, cols)
  {
    if |cameFrom| == 0 {
      return [];
    }
    var shortestPath := BacktrackPath(cameFrom, goal, rows, cols);
    var currentGrid := ClearCurrent(baseGrid, rows, cols);
    BacktrackOnBoard(cameFrom, goal, [], rows * cols, rows, cols);
    pathSteps := DrawTrail(currentGrid, shortestPath);
  }
}
