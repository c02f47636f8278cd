/** Facts shared by the four search engines of app/utils/PathingAlgorithms.tsx:
    the carried path of an open entry is a walk from the start, and the
    snapshots never repaint start, goal or wall cells. */
module Searches {
  import opened Grids
  import opened Neighbours
  import opened OpenLists

  /** `iterations > maxIterations` with `maxIterations = rows * cols * 2` (A* and DFS). */
  function Cap(q: Search): int {
    q.rows * q.cols * 2
  }

  /** Consecutive cells `path[i - 1]` and `path[i]` share a side, and `path[i]`
      is a passable cell. */
  predicate StepAt(q: Search, path: seq<Pos>, i: int) {
    1 <= i < |path| && Adjacent(path[i - 1], path[i]) && Passable(q.grid, q.rows, q.cols, path[i])
  }

  /** `path` runs from the start to `to` through passable cells, each sharing a
      side with the one before: the path an open entry carries. */
  predicate Walk(q: Search, path: seq<Pos>, to: Pos) {
    |path| > 0 && path[0] == q.start && path[|path| - 1] == to &&
    forall i :: 1 <= i < |path| ==> StepAt(q, path, i)
  }

  /** Every position of `path` names a cell of a grid shaped like `q`'s. */
  predicate InGrid(q: Search, path: seq<Pos>) {
    forall i :: 0 <= i < |path| ==> InBounds(path[i], q.rows, q.cols)
  }

  lemma {:induction false} WalkStart(q: Search)
    ensures Walk(q, [q.start], q.start)
  {
  }

  /** Appending a passable neighbour of its end extends a walk (`[...path, neighbor]`). */
  lemma {:induction false} WalkExtend(q: Search, path: seq<Pos>, p: Pos, n: Pos)
    requires Walk(q, path, p) && Adjacent(p, n) && Passable(q.grid, q.rows, q.cols, n)
    ensures Walk(q, path + [n], n)
  {
    var path' := path + [n];
    forall i | 1 <= i < |path'| ensures StepAt(q, path', i) {
      if i < |path| {
        assert StepAt(q, path, i);
      }
    }
  }

  lemma {:induction false} WalkInGrid(q: Search, path: seq<Pos>, to: Pos)
    requires Valid(q) && Walk(q, path, to)
    ensures InGrid(q, path) && InBounds(to, q.rows, q.cols)
  {
    forall i | 0 <= i < |path| ensures InBounds(path[i], q.rows, q.cols) {
      if i > 0 {
        assert StepAt(q, path, i);
      }
    }
  }

  /** A cell the engines may paint: inside the grid, and the start or not a wall. */
  predicate Paintable(q: Search, p: Pos) {
    InBounds(p, q.rows, q.cols) && Within(q.grid, p) && (p == q.start || At(q.grid, p) != Wall)
  }

  lemma {:induction false} WalkPaintable(q: Search, path: seq<Pos>, to: Pos)
    requires Valid(q) && Walk(q, path, to)
    ensures forall i :: 0 <= i < |path| ==> Paintable(q, path[i])
  {
    forall i | 0 <= i < |path| ensures Paintable(q, path[i]) {
      if i > 0 {
        assert StepAt(q, path, i);
      }
    }
  }

  /** At `p`, snapshot `g` still shows what the grid showed there if that was
      start or goal, and a wall if the grid had a wall other than at the start. */
  predicate KeptAt(q: Search, g: Grid, p: Pos) {
    Within(q.grid, p) && Within(g, p) &&
    (Fixed(At(q.grid, p)) ==> At(g, p) == At(q.grid, p)) &&
    (At(q.grid, p) == Wall && p != q.start ==> At(g, p) == Wall)
  }

  /** Snapshot `g` has the grid's shape and repaints no start, goal or wall cell. */
  ghost predicate Kept(q: Search, g: Grid) {
    Shaped(g, q.rows, q.cols) && forall p :: InBounds(p, q.rows, q.cols) ==> KeptAt(q, g, p)
  }

  ghost predicate AllKept(q: Search, steps: seq<Grid>) {
    forall k :: 0 <= k < |steps| ==> Kept(q, steps[k])
  }

  lemma {:induction false} KeptGrid(q: Search)
    requires Valid(q)
    ensures Kept(q, q.grid)
  {
  }

  /** Painting a paintable cell that is not start or goal keeps the snapshot kept. */
  lemma {:induction false} KeptPaint(q: Search, g: Grid, p: Pos, c: Cell)
    requires Valid(q) && Kept(q, g) && Paintable(q, p) && Within(g, p) && !Fixed(At(g, p))
    ensures Kept(q, Paint(g, p, c))
  {
    var g' := Paint(g, p, c);
    PaintShaped(g, p, c, q.rows, q.cols);
    forall x | InBounds(x, q.rows, q.cols) ensures KeptAt(q, g', x) {
      assert KeptAt(q, g, x);
    }
  }

  lemma {:induction false} KeptAppend(q: Search, steps: seq<Grid>, g: Grid)
    requires AllKept(q, steps) && Kept(q, g)
    ensures AllKept(q, steps + [g])
  {
    forall k | 0 <= k < |steps| + 1 ensures Kept(q, (steps + [g])[k]) {
      if k < |steps| {
        assert Kept(q, steps[k]);
      }
    }
  }

  /** The "current" and "visited" snapshots keep every snapshot kept. */
  lemma {:induction false} KeptMark(q: Search, steps: seq<Grid>, p: Pos, c: Cell)
    requires Valid(q) && |steps| > 0 && AllKept(q, steps) && Paintable(q, p)
    ensures Within(Last(steps), p) && AllKept(q, Mark(steps, p, c)) && Kept(q, Last(Mark(steps, p, c)))
  {
    var g := Last(steps);
    assert Kept(q, g);
    if !Fixed(At(g, p)) {
      KeptPaint(q, g, p, c);
      KeptAppend(q, steps, Paint(g, p, c));
    }
  }

  /** The frontier snapshot is kept when every listed position is paintable. */
  lemma {:induction false} KeptFrontier(q: Search, g: Grid, ps: seq<Pos>)
    requires Valid(q) && Kept(q, g) && AllWithin(g, ps)
    requires forall i :: 0 <= i < |ps| ==> Paintable(q, ps[i])
    ensures Kept(q, FrontierOf(g, ps))
  {
    var f := FrontierOf(g, ps);
    forall x | InBounds(x, q.rows, q.cols) ensures KeptAt(q, f, x) {
      assert KeptAt(q, g, x);
      FrontierCells(g, ps, x);
      if x in ps {
        var i :| 0 <= i < |ps| && ps[i] == x;
        assert Paintable(q, ps[i]);
      }
    }
  }

  /** The path snapshots are kept when the path is a walk. */
  lemma {:induction false} KeptPathRun(q: Search, steps: seq<Grid>, path: seq<Pos>, to: Pos, i: nat)
    requires Valid(q) && |steps| > 0 && AllKept(q, steps) && Walk(q, path, to)
    ensures AllWithin(Last(steps), path) && AllKept(q, PathRun(steps, path, i))
    decreases |path| - i
  {
    WalkPaintable(q, path, to);
    assert Kept(q, Last(steps));
    if i + 1 < |path| {
      var g := PaintUnlessFixed(Last(steps), path[i], Path);
      if !Fixed(At(Last(steps), path[i])) {
        KeptPaint(q, Last(steps), path[i], Path);
      }
      KeptAppend(q, steps, g);
      KeptPathRun(q, steps + [g], path, to, i + 1);
    }
  }

  /** One expansion of `p` that does not reach the goal, as the snapshots show
      it: `after` extends `before` by a "current" snapshot (`p` marked current)
      and a "visited" one (`p` marked visited) unless `p` holds start or goal,
      and then by the frontier snapshot of `ps`. */
  predicate Expansion(before: seq<Grid>, after: seq<Grid>, p: Pos, ps: seq<Pos>) {
    |before| > 0 && Within(Last(before), p) && |after| > |before| &&
    after[..|before|] == before &&
    var g := Last(before);
    (if Fixed(At(g, p)) then |after| == |before| + 1
     else |after| == |before| + 3 &&
          after[|before|] == Paint(g, p, Current) &&
          after[|before| + 1] == Paint(after[|before|], p, Visited)) &&
    AllWithin(after[|after| - 2], ps) &&
    Last(after) == FrontierOf(after[|after| - 2], ps)
  }

  /** The current, visited and frontier snapshots pushed by one expansion. */
  lemma {:induction false} MarkExpansion(steps: seq<Grid>, p: Pos, ps: seq<Pos>)
    requires |steps| > 0 && Within(Last(steps), p)
    ensures var s2 := Mark(Mark(steps, p, Current), p, Visited);
            AllWithin(Last(s2), ps) ==> Expansion(steps, s2 + [FrontierOf(Last(s2), ps)], p, ps)
  {
    var s2 := Mark(Mark(steps, p, Current), p, Visited);
    if AllWithin(Last(s2), ps) {
      var after := s2 + [FrontierOf(Last(s2), ps)];
      assert after[..|steps|] == steps;
    }
  }
  /** Every position of `ps` names a cell inside the grid's bounds. */
  predicate AllIn(q: Search, ps: seq<Pos>) {
    forall i :: 0 <= i < |ps| ==> InBounds(ps[i], q.rows, q.cols)
  }

  lemma {:induction false} ShapedWithin(q: Search, g: Grid, ps: seq<Pos>)
    requires Shaped(g, q.rows, q.cols) && AllIn(q, ps)
    ensures AllWithin(g, ps)
  {
  }

  lemma {:induction false} MarkShaped(q: Search, steps: seq<Grid>, p: Pos, c: Cell)
    requires |steps| > 0 && Shaped(Last(steps), q.rows, q.cols) && Within(Last(steps), p)
    ensures Shaped(Last(Mark(steps, p, c)), q.rows, q.cols)
  {
  }

  /** The rest of an expansion that does not reach the goal, once the
      "current" snapshot is pushed: the "visited" snapshot (unless `p` holds
      start or goal) and the frontier snapshot of the new open list `ps`. */
  function Expand(q: Search, steps: seq<Grid>, p: Pos, ps: seq<Pos>): (r: seq<Grid>)
    requires |steps| > 0 && Shaped(Last(steps), q.rows, q.cols)
    requires InBounds(p, q.rows, q.cols) && AllIn(q, ps)
    ensures |r| > |steps| && Shaped(Last(r), q.rows, q.cols)
  {
    var s2 := Mark(steps, p, Visited);
    MarkShaped(q, steps, p, Visited);
    ShapedWithin(q, Last(s2), ps);
    s2 + [FrontierOf(Last(s2), ps)]
  }

  /** An expansion as a whole: `Expand` after the "current" snapshot. */
  lemma {:induction false} ExpandExpansion(q: Search, steps: seq<Grid>, p: Pos, ps: seq<Pos>)
    requires |steps| > 0 && Shaped(Last(steps), q.rows, q.cols)
    requires InBounds(p, q.rows, q.cols) && AllIn(q, ps)
    ensures var s1 := Mark(steps, p, Current);
            Shaped(Last(s1), q.rows, q.cols) &&
            Expansion(steps, Expand(q, s1, p, ps), p, ps)
  {
    var s1 := Mark(steps, p, Current);
    MarkShaped(q, steps, p, Current);
    MarkShaped(q, s1, p, Visited);
    ShapedWithin(q, Last(Mark(s1, p, Visited)), ps);
    MarkExpansion(steps, p, ps);
  }

  /** An expansion of a paintable cell with a paintable open list keeps every
      snapshot kept. */
  lemma {:induction false} ExpandKept(q: Search, steps: seq<Grid>, p: Pos, ps: seq<Pos>)
    requires Valid(q) && |steps| > 0 && AllKept(q, steps) && Paintable(q, p)
    requires AllIn(q, ps) && forall i :: 0 <= i < |ps| ==> Paintable(q, ps[i])
    ensures var s1 := Mark(steps, p, Current);
            AllKept(q, s1) && AllKept(q, Expand(q, s1, p, ps))
  {
    var s1 := Mark(steps, p, Current);
    KeptMark(q, steps, p, Current);
    KeptMark(q, s1, p, Visited);
    var s2 := Mark(s1, p, Visited);
    assert Kept(q, Last(s2));
    ShapedWithin(q, Last(s2), ps);
    KeptFrontier(q, Last(s2), ps);
    KeptAppend(q, s2, FrontierOf(Last(s2), ps));
  }

  // ------------------------------------------------------------ scored open lists

  /** Every entry of an A* or Greedy open list lies inside the grid, with its
      carried path. */
  predicate Inside(q: Search, open: seq<Scored>) {
    forall e :: e in open ==> InBounds(e.pos, q.rows, q.cols) && AllIn(q, e.path)
  }

  /** Every entry carries a walk from the start to its own position. */
  predicate Walks(q: Search, open: seq<Scored>) {
    forall e :: e in open ==> Walk(q, e.path, e.pos)
  }

  lemma {:induction false} InsidePositions(q: Search, open: seq<Scored>)
    requires Inside(q, open)
    ensures AllIn(q, Positions(open))
  {
    forall i | 0 <= i < |open| ensures InBounds(Positions(open)[i], q.rows, q.cols) {
      assert open[i] in open;
    }
  }

  /** Entries carrying walks lie inside the grid and name paintable cells. */
  lemma {:induction false} WalksInside(q: Search, open: seq<Scored>)
    requires Valid(q) && Walks(q, open)
    ensures Inside(q, open) && AllIn(q, Positions(open))
    ensures forall i :: 0 <= i < |open| ==> Paintable(q, Positions(open)[i])
  {
    forall e | e in open ensures InBounds(e.pos, q.rows, q.cols) && AllIn(q, e.path) && Paintable(q, e.pos) {
      WalkInGrid(q, e.path, e.pos);
      WalkPaintable(q, e.path, e.pos);
      assert Paintable(q, e.path[|e.path| - 1]);
    }
    InsidePositions(q, open);
    forall i | 0 <= i < |open| ensures Paintable(q, Positions(open)[i]) {
      assert open[i] in open;
    }
  }

  /** Sorting and shifting keep the entries' facts: they only reorder and drop entries. */
  lemma {:induction false} SortedRest(q: Search, open: seq<Scored>)
    requires |open| > 0
    ensures var sorted := SortByScore(open);
            |sorted| == |open| && sorted[0] in open &&
            (forall e :: e in sorted[1..] ==> e in open) &&
            (Inside(q, open) ==> Inside(q, sorted[1..])) &&
            (Walks(q, open) ==> Walks(q, sorted[1..]))
  {
    var sorted := SortByScore(open);
    SortByScorePermutes(open);
    assert sorted[0] in multiset(sorted);
    forall e | e in sorted[1..] ensures e in open {
      assert e in multiset(sorted);
    }
  }

  // ------------------------------------------------------------ progress

  /** The cells of the `rows` x `cols` board. */
  function AllCells(q: Search): set<Pos> {
    set r: int, c: int | 0 <= r < q.rows && 0 <= c < q.cols :: Pos(r, c)
  }

  lemma {:induction false} InAllCells(q: Search, p: Pos)
    requires InBounds(p, q.rows, q.cols)
    ensures p in AllCells(q)
  {
    assert p == Pos(p.row, p.col);
  }

  /** Adding cells of the board to the visited set leaves fewer cells to visit. */
  lemma {:induction false} Shrinks(q: Search, v: set<Pos>, v': set<Pos>)
    requires v <= v' && forall x :: x in v' && x !in v ==> InBounds(x, q.rows, q.cols)
    ensures v' == v || AllCells(q) - v' < AllCells(q) - v
  {
    if v' != v {
      var x :| x in v' && x !in v;
      InAllCells(q, x);
      assert x in AllCells(q) - v;
    }
  }

  // ------------------------------------------------------------ stacks and queues

  /** A DFS stack or BFS queue entry `[position, path]`. */
  datatype Node = Node(pos: Pos, path: seq<Pos>)

  /** The positions of the entries, in list order. */
  function NodePositions(s: seq<Node>): (r: seq<Pos>)
    ensures |r| == |s| && forall i :: 0 <= i < |s| ==> r[i] == s[i].pos
  {
    seq(|s|, i requires 0 <= i < |s| => s[i].pos)
  }

  /** Every entry lies inside the grid, with its carried path. */
  predicate NodesInside(q: Search, s: seq<Node>) {
    forall e :: e in s ==> InBounds(e.pos, q.rows, q.cols) && AllIn(q, e.path)
  }

  /** Every entry carries a walk from the start to its own position. */
  predicate NodesWalk(q: Search, s: seq<Node>) {
    forall e :: e in s ==> Walk(q, e.path, e.pos)
  }

  lemma {:induction false} NodesInsidePositions(q: Search, s: seq<Node>)
    requires NodesInside(q, s)
    ensures AllIn(q, NodePositions(s))
  {
    forall i | 0 <= i < |s| ensures InBounds(NodePositions(s)[i], q.rows, q.cols) {
      assert s[i] in s;
    }
  }

  /** Entries carrying walks lie inside the grid and name paintable cells. */
  lemma {:induction false} NodesWalkInside(q: Search, s: seq<Node>)
    requires Valid(q) && NodesWalk(q, s)
    ensures NodesInside(q, s) && AllIn(q, NodePositions(s))
    ensures forall i :: 0 <= i < |s| ==> Paintable(q, NodePositions(s)[i])
  {
    forall e | e in s ensures InBounds(e.pos, q.rows, q.cols) && AllIn(q, e.path) && Paintable(q, e.pos) {
      WalkInGrid(q, e.path, e.pos);
      WalkPaintable(q, e.path, e.pos);
      assert Paintable(q, e.path[|e.path| - 1]);
    }
    NodesInsidePositions(q, s);
    forall i | 0 <= i < |s| ensures Paintable(q, NodePositions(s)[i]) {
      assert s[i] in s;
    }
  }

  /** Dropping the first or the last entry keeps the entries' facts. */
  lemma {:induction false} NodesDrop(q: Search, s: seq<Node>)
    requires |s| > 0
    ensures s[0] in s && s[|s| - 1] in s
    ensures (forall e :: e in s[1..] ==> e in s) && (forall e :: e in s[..|s| - 1] ==> e in s)
    ensures NodesInside(q, s) ==> NodesInside(q, s[1..]) && NodesInside(q, s[..|s| - 1])
    ensures NodesWalk(q, s) ==> NodesWalk(q, s[1..]) && NodesWalk(q, s[..|s| - 1])
  {
    forall e | e in s[1..] ensures e in s {
      var j :| 0 <= j < |s[1..]| && s[1..][j] == e;
      assert s[j + 1] == e;
    }
    forall e | e in s[..|s| - 1] ensures e in s {
      var j :| 0 <= j < |s[..|s| - 1]| && s[..|s| - 1][j] == e;
      assert s[j] == e;
    }
  }

  // ------------------------------------------------------------ outcomes

  /** The first two snapshots: a copy of the grid and the frontier snapshot
      of the start ("Mark initial frontier"). */
  predicate Opens(q: Search, steps: seq<Grid>)
    requires Valid(q)
  {
    |steps| >= 2 && steps[0] == q.grid && steps[1] == FrontierOf(q.grid, [q.start])
  }

  lemma {:induction false} OpensExtend(q: Search, steps: seq<Grid>, more: seq<Grid>)
    requires Valid(q) && Opens(q, steps) && |more| >= |steps| && more[..|steps|] == steps
    ensures Opens(q, more)
  {
    assert more[0] == more[..|steps|][0] && more[1] == more[..|steps|][1];
  }

  /** What every engine hands to the path loop: the snapshots open as they
      should and are all kept, a found path is a walk from start to goal, and
      no path is handed over otherwise. */
  ghost predicate Sound(q: Search, o: Outcome) {
    Valid(q) && Opens(q, o.steps) && AllKept(q, o.steps) &&
    (o.found ==> Walk(q, o.path, q.goal)) && (!o.found ==> o.path == [])
  }

  /** A found path lies inside the last search snapshot. */
  lemma {:induction false} PathWithin(q: Search, o: Outcome)
    requires Sound(q, o)
    ensures AllWithin(Last(o.steps), o.path)
  {
    assert Kept(q, Last(o.steps));
    if o.found {
      WalkInGrid(q, o.path, q.goal);
      ShapedWithin(q, Last(o.steps), o.path);
    }
  }

  /** The trace after the path loop: it extends the search snapshots, stays
      kept, and adds exactly `|path| - 2` path snapshots when a path was found,
      and nothing otherwise. */
  lemma {:induction false} FinishSound(q: Search, o: Outcome)
    requires Sound(q, o)
    ensures AllWithin(Last(o.steps), o.path)
    ensures var r := Finish(o);
            |r| >= |o.steps| && r[..|o.steps|] == o.steps && Opens(q, r) && AllKept(q, r) &&
            (o.found ==> |r| == |o.steps| + (if |o.path| >= 2 then |o.path| - 2 else 0)) &&
            (!o.found ==> r == o.steps)
  {
    PathWithin(q, o);
    if o.found {
      WalkInGrid(q, o.path, q.goal);
      KeptPathRun(q, o.steps, o.path, q.goal, 1);
      PathRunCells(o.steps, o.path, 1);
      OpensExtend(q, o.steps, Finish(o));
    }
  }

  /** Each path snapshot turns one interior cell of the path, in order, into
      `path` unless it is start or goal. */
  lemma {:induction false} FinishCells(q: Search, o: Outcome)
    requires Sound(q, o)
    ensures AllWithin(Last(o.steps), o.path)
    ensures var r := Finish(o);
            o.found ==> forall t :: 1 <= t < |o.path| - 1 ==>
              Within(r[|o.steps| + t - 2], o.path[t]) &&
              r[|o.steps| + t - 1] == PaintUnlessFixed(r[|o.steps| + t - 2], o.path[t], Path)
  {
    PathWithin(q, o);
    if o.found && |o.path| > 0 {
      CellsFrom(o.steps, o.path);
    }
  }

  lemma {:induction false} CellsFrom(steps: seq<Grid>, path: seq<Pos>)
    requires |steps| > 0 && AllWithin(Last(steps), path)
    ensures var r := PathRun(steps, path, 1);
            forall t :: 1 <= t < |path| - 1 ==>
              Within(r[|steps| + t - 2], path[t]) &&
              r[|steps| + t - 1] == PaintUnlessFixed(r[|steps| + t - 2], path[t], Path)
  {
    PathRunCells(steps, path, 1);
  }

  /** "Create new state for this step - FIRST mark as CURRENT": a copy of the
      last snapshot with `p` marked current is pushed unless `p` holds start
      or goal. */
  method MarkCurrent(q: Search, steps: seq<Grid>, p: Pos) returns (steps': seq<Grid>)
    requires |steps| > 0 && Shaped(Last(steps), q.rows, q.cols) && InBounds(p, q.rows, q.cols)
    ensures steps' == Mark(steps, p, Current) && Shaped(Last(steps'), q.rows, q.cols)
  {
    steps' := steps;
    var currentGrid := Last(steps);
    if At(currentGrid, p) != Start && At(currentGrid, p) != Goal {
      currentGrid := Paint(currentGrid, p, Current);
      steps' := steps' + [currentGrid];
    }
    MarkShaped(q, steps, p, Current);
  }
}
