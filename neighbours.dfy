/** `getNeighbors` and `getNeighborsInOrder` of app/utils/PathingAlgorithms.tsx,
    and the inline direction table of BFS and Greedy: a scan of four unit
    moves in a fixed order, keeping those that stay in the grid and do not
    land on a wall. */
module Neighbours {
  import opened Grids

  /** `getNeighbors` (A*): up, down, left, right. */
  const AStarDirections: seq<Pos> := [Pos(-1, 0), Pos(1, 0), Pos(0, -1), Pos(0, 1)]

  /** `getNeighborsInOrder` (DFS): right, down, left, up. */
  const DfsDirections: seq<Pos> := [Pos(0, 1), Pos(1, 0), Pos(0, -1), Pos(-1, 0)]

  /** The `directions` table of BFS and Greedy: up, right, down, left. */
  const SweepDirections: seq<Pos> := [Pos(-1, 0), Pos(0, 1), Pos(1, 0), Pos(0, -1)]

  /** `p` moved by the offset `d`. */
  function Move(p: Pos, d: Pos): Pos {
    Pos(p.row + d.row, p.col + d.col)
  }

  /** `p` and `n` share a side. */
  predicate Adjacent(p: Pos, n: Pos) {
    (p.row == n.row && (n.col == p.col + 1 || n.col == p.col - 1)) ||
    (p.col == n.col && (n.row == p.row + 1 || n.row == p.row - 1))
  }

  /** The test of the scan: inside `rows` x `cols` and not a wall. */
  predicate Passable(grid: Grid, rows: int, cols: int, n: Pos) {
    InBounds(n, rows, cols) && Within(grid, n) && At(grid, n) != Wall
  }

  /** A move by one row or one column. */
  predicate Unit(d: Pos) {
    d == Pos(-1, 0) || d == Pos(1, 0) || d == Pos(0, -1) || d == Pos(0, 1)
  }

  /** A table holding each of the four unit moves exactly once. */
  predicate Compass(dirs: seq<Pos>) {
    |dirs| == 4 &&
    (forall i :: 0 <= i < |dirs| ==> Unit(dirs[i])) &&
    (forall i, j :: 0 <= i < j < |dirs| ==> dirs[i] != dirs[j]) &&
    Pos(-1, 0) in dirs && Pos(1, 0) in dirs && Pos(0, -1) in dirs && Pos(0, 1) in dirs
  }

  /** The neighbours the scan of `dirs[k..]` pushes, in table order. */
  function NeighborsFrom(dirs: seq<Pos>, k: nat, p: Pos, grid: Grid, rows: int, cols: int): seq<Pos>
    decreases |dirs| - k
  {
    if k >= |dirs| then []
    else
      var n := Move(p, dirs[k]);
      (if Passable(grid, rows, cols, n) then [n] else []) + NeighborsFrom(dirs, k + 1, p, grid, rows, cols)
  }

  function Neighbors(dirs: seq<Pos>, p: Pos, grid: Grid, rows: int, cols: int): seq<Pos> {
    NeighborsFrom(dirs, 0, p, grid, rows, cols)
  }

  /** The scan keeps the moves of `dirs[k..]` that are passable, in table order:
      `ks` lists the table positions of the kept moves, increasing. */
  lemma {:induction false} NeighborsFromOrder(dirs: seq<Pos>, k: nat, p: Pos, grid: Grid, rows: int, cols: int) returns (ks: seq<int>)
    requires k <= |dirs|
    ensures var r := NeighborsFrom(dirs, k, p, grid, rows, cols);
            |ks| == |r| &&
            (forall i :: 0 <= i < |ks| ==> k <= ks[i] < |dirs| && r[i] == Move(p, dirs[ks[i]])) &&
            (forall i, j :: 0 <= i < j < |ks| ==> ks[i] < ks[j]) &&
            (forall t :: k <= t < |dirs| ==> (t in ks <==> Passable(grid, rows, cols, Move(p, dirs[t]))))
    decreases |dirs| - k
  {
    if k == |dirs| {
      ks := [];
    } else {
      var rest := NeighborsFromOrder(dirs, k + 1, p, grid, rows, cols);
      if Passable(grid, rows, cols, Move(p, dirs[k])) {
        ks := [k] + rest;
      } else {
        ks := rest;
      }
    }
  }

  /** `getNeighbors`/`getNeighborsInOrder`: exactly the passable neighbours,
      each once. */
  lemma {:induction false} NeighborsExactly(dirs: seq<Pos>, p: Pos, grid: Grid, rows: int, cols: int)
    requires Compass(dirs)
    ensures var r := Neighbors(dirs, p, grid, rows, cols);
            (forall i :: 0 <= i < |r| ==> Adjacent(p, r[i]) && Passable(grid, rows, cols, r[i])) &&
            (forall n :: Adjacent(p, n) && Passable(grid, rows, cols, n) ==> n in r) &&
            (forall i, j :: 0 <= i < j < |r| ==> r[i] != r[j])
  {
    var ks := NeighborsFromOrder(dirs, 0, p, grid, rows, cols);
    NeighborsSound(dirs, p, grid, rows, cols, ks);
    NeighborsComplete(dirs, p, grid, rows, cols, ks);
    NeighborsDistinct(dirs, p, grid, rows, cols, ks);
  }

  /** The table positions `ks` of the kept moves, as `NeighborsFromOrder` gives them. */
  predicate Ranked(dirs: seq<Pos>, p: Pos, grid: Grid, rows: int, cols: int, ks: seq<int>) {
    var r := Neighbors(dirs, p, grid, rows, cols);
    |ks| == |r| &&
    (forall i :: 0 <= i < |ks| ==> 0 <= ks[i] < |dirs| && r[i] == Move(p, dirs[ks[i]])) &&
    (forall i, j :: 0 <= i < j < |ks| ==> ks[i] < ks[j]) &&
    (forall t :: 0 <= t < |dirs| ==> (t in ks <==> Passable(grid, rows, cols, Move(p, dirs[t]))))
  }

  lemma {:induction false} NeighborsSound(dirs: seq<Pos>, p: Pos, grid: Grid, rows: int, cols: int, ks: seq<int>)
    requires Compass(dirs) && Ranked(dirs, p, grid, rows, cols, ks)
    ensures var r := Neighbors(dirs, p, grid, rows, cols);
            forall i :: 0 <= i < |r| ==> Adjacent(p, r[i]) && Passable(grid, rows, cols, r[i])
  {
    var r := Neighbors(dirs, p, grid, rows, cols);
    forall i | 0 <= i < |r| ensures Adjacent(p, r[i]) && Passable(grid, rows, cols, r[i]) {
      assert Unit(dirs[ks[i]]);
      assert ks[i] in ks;
    }
  }

  lemma {:induction false} NeighborsComplete(dirs: seq<Pos>, p: Pos, grid: Grid, rows: int, cols: int, ks: seq<int>)
    requires Compass(dirs) && Ranked(dirs, p, grid, rows, cols, ks)
    ensures forall n :: Adjacent(p, n) && Passable(grid, rows, cols, n) ==> n in Neighbors(dirs, p, grid, rows, cols)
  {
    var r := Neighbors(dirs, p, grid, rows, cols);
    forall n | Adjacent(p, n) && Passable(grid, rows, cols, n) ensures n in r {
      var d := Pos(n.row - p.row, n.col - p.col);
      assert d in dirs;
      var t :| 0 <= t < |dirs| && dirs[t] == d;
      assert Move(p, dirs[t]) == n;
      var i :| 0 <= i < |ks| && ks[i] == t;
      assert r[i] == n;
    }
  }

  lemma {:induction false} NeighborsDistinct(dirs: seq<Pos>, p: Pos, grid: Grid, rows: int, cols: int, ks: seq<int>)
    requires Compass(dirs) && Ranked(dirs, p, grid, rows, cols, ks)
    ensures var r := Neighbors(dirs, p, grid, rows, cols);
            forall i, j :: 0 <= i < j < |r| ==> r[i] != r[j]
  {
    var r := Neighbors(dirs, p, grid, rows, cols);
    forall i, j | 0 <= i < j < |r| ensures r[i] != r[j] {
      assert ks[i] < ks[j];
      assert dirs[ks[i]] != dirs[ks[j]];
    }
  }

  lemma {:induction false} CompassTables()
    ensures Compass(AStarDirections) && Compass(DfsDirections) && Compass(SweepDirections)
  {
  }

  /** The loop shared by `getNeighbors` and `getNeighborsInOrder`. */
  method CollectNeighbors(dirs: seq<Pos>, p: Pos, grid: Grid, rows: int, cols: int) returns (r: seq<Pos>)
    ensures r == Neighbors(dirs, p, grid, rows, cols)
  {
    r := [];
    var k := 0;
    while k < |dirs|
      invariant 0 <= k <= |dirs|
      invariant r + NeighborsFrom(dirs, k, p, grid, rows, cols) == Neighbors(dirs, p, grid, rows, cols)
    {
      var n := Move(p, dirs[k]);
      if 0 <= n.row < rows && 0 <= n.col < cols && Within(grid, n) && At(grid, n) != Wall {
        r := r + [n];
      }
      k := k + 1;
    }
  }

  method GetNeighbors(p: Pos, grid: Grid, rows: int, cols: int) returns (r: seq<Pos>)
    ensures r == Neighbors(AStarDirections, p, grid, rows, cols)
  {
    r := CollectNeighbors(AStarDirections, p, grid, rows, cols);
  }

  method GetNeighborsInOrder(p: Pos, grid: Grid, rows: int, cols: int) returns (r: seq<Pos>)
    ensures r == Neighbors(DfsDirections, p, grid, rows, cols)
  {
    r := CollectNeighbors(DfsDirections, p, grid, rows, cols);
  }
}
