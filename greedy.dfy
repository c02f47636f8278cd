/** `computeGreedyBestFirstSteps` of app/utils/PathingAlgorithms.tsx: greedy
    best-first search with an open list of `[position, h, path]` entries
    sorted by the Manhattan distance to the goal before every pop, and a
    visited set, recording a snapshot per change. */
module GreedyBestFirst {
  import opened Grids
  import opened Neighbours
  import opened OpenLists
  import opened Searches

  /** The loop state: `steps`, `openSet` and `visited`. */
  datatype State = State(steps: seq<Grid>, open: seq<Scored>, visited: set<Pos>)

  /** One pass of the `while` loop ends in the next state or leaves the loop. */
  datatype Next = Continue(s: State) | Done(o: Outcome)

  predicate Ready(q: Search, s: State) {
    |s.steps| > 0 && Shaped(Last(s.steps), q.rows, q.cols) && Inside(q, s.open)
  }

  function Abs(x: int): int {
    if x < 0 then -x else x
  }

  /** `heuristic(pos)`: the Manhattan distance to the goal. */
  function Manhattan(a: Pos, b: Pos): (r: int)
    ensures r >= 0 && (r == 0 <==> a == b)
  {
    Abs(a.row - b.row) + Abs(a.col - b.col)
  }

  /** The open entry a neighbour `n` of `cur` gets: its distance to the goal
      and the path extended by it. */
  function Entry(q: Search, cur: Scored, n: Pos): Scored {
    Scored(n, Manhattan(n, q.goal) as real, cur.path + [n])
  }

  /** The `for` loop over the directions up, right, down, left from entry `k`
      on: a neighbour inside the board, not visited and not a wall (in the
      grid as passed in) is pushed, whether or not it is already open. */
  function PushFrom(q: Search, cur: Scored, visited: set<Pos>, k: nat, open: seq<Scored>): seq<Scored>
    decreases |SweepDirections| - k
  {
    if k >= |SweepDirections| then open
    else
      var n := Move(cur.pos, SweepDirections[k]);
      PushFrom(q, cur, visited, k + 1,
               if Passable(q.grid, q.rows, q.cols, n) && n !in visited then open + [Entry(q, cur, n)] else open)
  }

  /** Every entry after the scan was open before or is the entry of an
      unvisited passable neighbour; every entry open before stays. */
  lemma {:induction false} PushMembers(q: Search, cur: Scored, visited: set<Pos>, k: nat, open: seq<Scored>)
    ensures var r := PushFrom(q, cur, visited, k, open);
            (forall e :: e in open ==> e in r) &&
            (forall e :: e in r ==>
               (e in open ||
                (e == Entry(q, cur, e.pos) && e.pos !in visited && Adjacent(cur.pos, e.pos) &&
                 Passable(q.grid, q.rows, q.cols, e.pos))))
    decreases |SweepDirections| - k
  {
    if k < |SweepDirections| {
      var n := Move(cur.pos, SweepDirections[k]);
      var open' := if Passable(q.grid, q.rows, q.cols, n) && n !in visited then open + [Entry(q, cur, n)] else open;
      PushMembers(q, cur, visited, k + 1, open');
    }
  }

  /** Every unvisited passable neighbour from entry `k` of the table on gets
      its entry pushed. */
  lemma {:induction false} PushComplete(q: Search, cur: Scored, visited: set<Pos>, k: nat, open: seq<Scored>)
    requires k <= |SweepDirections|
    ensures var r := PushFrom(q, cur, visited, k, open);
            forall j :: k <= j < |SweepDirections| ==>
              var n := Move(cur.pos, SweepDirections[j]);
              Passable(q.grid, q.rows, q.cols, n) && n !in visited ==> Entry(q, cur, n) in r
    decreases |SweepDirections| - k
  {
    if k < |SweepDirections| {
      var n := Move(cur.pos, SweepDirections[k]);
      var open' := if Passable(q.grid, q.rows, q.cols, n) && n !in visited then open + [Entry(q, cur, n)] else open;
      PushComplete(q, cur, visited, k + 1, open');
      PushMembers(q, cur, visited, k + 1, open');
      if Passable(q.grid, q.rows, q.cols, n) && n !in visited {
        assert Entry(q, cur, n) in open';
      }
    }
  }

  lemma {:induction false} PushInside(q: Search, cur: Scored, visited: set<Pos>, open: seq<Scored>)
    requires InBounds(cur.pos, q.rows, q.cols) && AllIn(q, cur.path) && Inside(q, open)
    ensures Inside(q, PushFrom(q, cur, visited, 0, open))
  {
    PushMembers(q, cur, visited, 0, open);
  }

  /** `openSet.sort(...)` then `openSet.shift()`. */
  function Popped(s: State): Scored
    requires |s.open| > 0
  {
    SortByScore(s.open)[0]
  }

  /** The loop makes progress: more cells visited, or as many and a shorter
      open list. */
  predicate Fewer(q: Search, s: State, s': State) {
    AllCells(q) - s'.visited < AllCells(q) - s.visited ||
    (s'.visited == s.visited && |s'.open| < |s.open|)
  }

  /** One pass of the search loop. */
  function Step(q: Search, s: State): (r: Next)
    requires Valid(q) && Ready(q, s)
    ensures r.Continue? ==> Ready(q, r.s) && Fewer(q, s, r.s)
    ensures r.Done? ==> |r.o.steps| > 0 && Shaped(Last(r.o.steps), q.rows, q.cols) && AllIn(q, r.o.path)
  {
    if |s.open| == 0 then Done(Outcome(s.steps, false, []))
    else
      var sorted := SortByScore(s.open);
      SortedRest(q, s.open);
      var cur := sorted[0];
      if cur.pos in s.visited then Continue(s.(open := sorted[1..]))
      else
        var steps1 := Mark(s.steps, cur.pos, Current);
        MarkShaped(q, s.steps, cur.pos, Current);
        if cur.pos == q.goal then Done(Outcome(steps1, true, cur.path))
        else
          var visited := s.visited + {cur.pos};
          Shrinks(q, s.visited, visited);
          var open := PushFrom(q, cur, visited, 0, sorted[1..]);
          PushInside(q, cur, visited, sorted[1..]);
          InsidePositions(q, open);
          Continue(State(Expand(q, steps1, cur.pos, Positions(open)), open, visited))
  }

  /** The search loop from state `s` until the open list runs dry or the goal
      is reached. */
  function Run(q: Search, s: State): (o: Outcome)
    requires Valid(q) && Ready(q, s)
    ensures |o.steps| > 0 && Shaped(Last(o.steps), q.rows, q.cols) && AllIn(q, o.path)
    decreases AllCells(q) - s.visited, |s.open|
  {
    match Step(q, s)
    case Continue(s') => Run(q, s')
    case Done(o) => o
  }

  /** The start's own entry: score 0, not its distance to the goal. */
  function StartEntry(q: Search): Scored {
    Scored(q.start, 0.0, [q.start])
  }

  /** The state before the loop: the grid copy and the first frontier snapshot,
      the start's entry alone in the open list, nothing visited. */
  function Init(q: Search): (s: State)
    requires Valid(q)
    ensures Ready(q, s)
  {
    State([q.grid, FrontierOf(q.grid, [q.start])], [StartEntry(q)], {})
  }

  /** `computeGreedyBestFirstSteps(grid, start, goal, rows, cols)`. */
  function Trace(q: Search): PathResult
    requires Valid(q)
  {
    var o := Run(q, Init(q));
    ShapedWithin(q, Last(o.steps), o.path);
    PathResult(Finish(o), o.found)
  }

  // ------------------------------------------------------------ soundness

  ghost predicate Inv(q: Search, s: State) {
    Valid(q) && Ready(q, s) && Opens(q, s.steps) && AllKept(q, s.steps) && Walks(q, s.open)
  }

  lemma {:induction false} PushWalks(q: Search, cur: Scored, visited: set<Pos>, open: seq<Scored>)
    requires Walks(q, open) && Walk(q, cur.path, cur.pos)
    ensures Walks(q, PushFrom(q, cur, visited, 0, open))
  {
    PushMembers(q, cur, visited, 0, open);
    forall e | e in PushFrom(q, cur, visited, 0, open) ensures Walk(q, e.path, e.pos) {
      if e !in open {
        WalkExtend(q, cur.path, cur.pos, e.pos);
      }
    }
  }

  lemma {:induction false} StepSound(q: Search, s: State)
    requires Inv(q, s)
    ensures match Step(q, s)
            case Continue(s') => Inv(q, s')
            case Done(o) => Sound(q, o)
  {
    if |s.open| > 0 {
      var sorted := SortByScore(s.open);
      SortedRest(q, s.open);
      var cur := sorted[0];
      if cur.pos !in s.visited {
        assert Walk(q, cur.path, cur.pos);
        WalkPaintable(q, cur.path, cur.pos);
        assert Paintable(q, cur.path[|cur.path| - 1]);
        var steps1 := Mark(s.steps, cur.pos, Current);
        KeptMark(q, s.steps, cur.pos, Current);
        assert steps1[..|s.steps|] == s.steps;
        OpensExtend(q, s.steps, steps1);
        if cur.pos != q.goal {
          var visited := s.visited + {cur.pos};
          var open := PushFrom(q, cur, visited, 0, sorted[1..]);
          PushWalks(q, cur, visited, sorted[1..]);
          WalksInside(q, open);
          ExpandKept(q, s.steps, cur.pos, Positions(open));
          ExpandExpansion(q, s.steps, cur.pos, Positions(open));
          OpensExtend(q, s.steps, Expand(q, steps1, cur.pos, Positions(open)));
        }
      }
    }
  }

  lemma {:induction false} RunSound(q: Search, s: State)
    requires Inv(q, s)
    ensures Sound(q, Run(q, s))
    decreases AllCells(q) - s.visited, |s.open|
  {
    StepSound(q, s);
    match Step(q, s)
    case Continue(s') => RunSound(q, s');
    case Done(o) =>
  }

  lemma {:induction false} InitSound(q: Search)
    requires Valid(q)
    ensures Inv(q, Init(q))
  {
    KeptGrid(q);
    KeptFrontier(q, q.grid, [q.start]);
    KeptAppend(q, [q.grid], FrontierOf(q.grid, [q.start]));
    WalkStart(q);
  }

  /** The trace opens with the grid and the start's frontier, never repaints
      start, goal or a wall, reports a path exactly when the search found a
      walk from start to goal, and then adds one path snapshot per interior
      cell of that walk; without a path nothing is added. */
  lemma {:induction false} TraceSound(q: Search)
    requires Valid(q)
    ensures var o := Run(q, Init(q)); var r := Trace(q);
            Opens(q, r.steps) && AllKept(q, r.steps) && r.pathFound == o.found &&
            (o.found ==> Walk(q, o.path, q.goal) &&
                         |r.steps| == |o.steps| + (if |o.path| >= 2 then |o.path| - 2 else 0)) &&
            (!o.found ==> r.steps == o.steps)
  {
    InitSound(q);
    RunSound(q, Init(q));
    FinishSound(q, Run(q, Init(q)));
  }

  // ------------------------------------------------------------ scores and pops

  /** Every open entry is scored by its distance to the goal, except the
      start's own entry, which is scored 0. */
  predicate ScoredBy(q: Search, open: seq<Scored>) {
    forall e :: e in open ==> e.score == Manhattan(e.pos, q.goal) as real || e == StartEntry(q)
  }

  /** A pass that does not leave either drops a visited entry or expands the
      popped cell by the scan of its neighbours. */
  lemma {:induction false} StepShape(q: Search, s: State)
    requires Valid(q) && Ready(q, s)
    ensures Step(q, s).Continue? ==>
              |s.open| > 0 &&
              var s' := Step(q, s).s;
              var p := Popped(s);
              (p.pos in s.visited ==> s' == s.(open := SortByScore(s.open)[1..])) &&
              (p.pos !in s.visited ==>
                 p.pos != q.goal && s'.visited == s.visited + {p.pos} &&
                 s'.open == PushFrom(q, p, s'.visited, 0, SortByScore(s.open)[1..]))
  {
  }

  /** Each pass keeps every entry scored by its distance to the goal. */
  lemma {:induction false} StepScores(q: Search, s: State)
    requires Valid(q) && Ready(q, s) && ScoredBy(q, s.open)
    ensures Step(q, s).Continue? ==> ScoredBy(q, Step(q, s).s.open)
  {
    StepShape(q, s);
    if |s.open| > 0 {
      SortedRest(q, s.open);
      PushMembers(q, Popped(s), s.visited + {Popped(s).pos}, 0, SortByScore(s.open)[1..]);
    }
  }

  lemma {:induction false} InitScores(q: Search)
    requires Valid(q)
    ensures ScoredBy(q, Init(q).open)
  {
  }

  /** The popped entry has the least score in the open list: it is the start's
      own entry or the open cell nearest to the goal. */
  lemma {:induction false} PopsNearest(q: Search, s: State)
    requires |s.open| > 0 && ScoredBy(q, s.open)
    ensures var p := Popped(s);
            p in s.open && (forall e :: e in s.open ==> p.score <= e.score) &&
            (p.score == Manhattan(p.pos, q.goal) as real || p == StartEntry(q))
  {
    var m := SortByScoreHead(s.open);
    forall e | e in s.open ensures Popped(s).score <= e.score {
      var i :| 0 <= i < |s.open| && s.open[i] == e;
    }
  }

  /** The snapshots one pass adds: none when the popped cell was visited, the
      "current" snapshot alone when it is the goal, and otherwise a whole
      expansion of a cell not visited before, ending with the frontier of the
      new open list. Only unvisited passable neighbours are pushed, each with
      its distance to the goal and the path extended by it, and every one of
      them is pushed. */
  lemma {:induction false} StepExpansion(q: Search, s: State)
    requires Valid(q) && Ready(q, s) && |s.open| > 0
    ensures var p := Popped(s);
            Within(Last(s.steps), p.pos) &&
            match Step(q, s)
            case Continue(s') =>
              (p.pos in s.visited && s'.steps == s.steps && s'.visited == s.visited) ||
              (p.pos !in s.visited && p.pos != q.goal && s'.visited == s.visited + {p.pos} &&
               Expansion(s.steps, s'.steps, p.pos, Positions(s'.open)))
            case Done(o) =>
              p.pos !in s.visited && p.pos == q.goal && o.found && o.path == p.path &&
              o.steps == Mark(s.steps, p.pos, Current)
  {
    var sorted := SortByScore(s.open);
    SortedRest(q, s.open);
    var cur := sorted[0];
    if cur.pos !in s.visited && cur.pos != q.goal {
      var visited := s.visited + {cur.pos};
      var open := PushFrom(q, cur, visited, 0, sorted[1..]);
      PushInside(q, cur, visited, sorted[1..]);
      InsidePositions(q, open);
      ExpandExpansion(q, s.steps, cur.pos, Positions(open));
    }
  }

  /** An expansion pushes exactly the entries of the unvisited passable
      neighbours and keeps every other open entry. */
  lemma {:induction false} StepPushes(q: Search, s: State)
    requires Valid(q) && Ready(q, s) && |s.open| > 0
    ensures var p := Popped(s);
            match Step(q, s)
            case Continue(s') =>
              p.pos !in s.visited ==>
                (forall e :: e in SortByScore(s.open)[1..] ==> e in s'.open) &&
                (forall n :: Adjacent(p.pos, n) && Passable(q.grid, q.rows, q.cols, n) && n !in s'.visited ==>
                   Entry(q, p, n) in s'.open) &&
                (forall e :: e in s'.open ==>
                   (e in SortByScore(s.open)[1..] ||
                    (e == Entry(q, p, e.pos) && e.pos !in s'.visited && Adjacent(p.pos, e.pos))))
            case Done(_) => true
  {
    StepShape(q, s);
    var cur := Popped(s);
    var rest := SortByScore(s.open)[1..];
    var visited := s.visited + {cur.pos};
    PushMembers(q, cur, visited, 0, rest);
    PushComplete(q, cur, visited, 0, rest);
    forall n | Adjacent(cur.pos, n) && Passable(q.grid, q.rows, q.cols, n)
      ensures exists j :: 0 <= j < |SweepDirections| && Move(cur.pos, SweepDirections[j]) == n
    {
      var d := Pos(n.row - cur.pos.row, n.col - cur.pos.col);
      assert Move(cur.pos, d) == n;
      if d == Pos(-1, 0) {
        assert SweepDirections[0] == d;
      } else if d == Pos(0, 1) {
        assert SweepDirections[1] == d;
      } else if d == Pos(1, 0) {
        assert SweepDirections[2] == d;
      } else {
        assert SweepDirections[3] == d;
      }
    }
  }

  /** When start and goal coincide (on a start or goal cell) the trace is the
      grid and the first frontier snapshot, and a path is reported. */
  lemma {:induction false} StartIsGoal(q: Search)
    requires Valid(q) && q.start == q.goal && Fixed(At(q.grid, q.start))
    ensures Trace(q) == PathResult([q.grid, FrontierOf(q.grid, [q.start])], true)
  {
    var s := Init(q);
    assert SortByScore(s.open) == s.open;
    StepExpansion(q, s);
    FrontierCells(q.grid, [q.start], q.start);
    assert Fixed(At(Last(s.steps), q.start));
    var next := Step(q, s);
    assert next.Done? && next.o == Outcome(s.steps, true, [q.start]);
    assert Run(q, s) == next.o;
  }

  // ------------------------------------------------------------ the imperative engine

  lemma {:induction false} RunContinues(q: Search, s: State, s': State)
    requires Valid(q) && Ready(q, s) && Step(q, s) == Continue(s')
    ensures Ready(q, s') && Fewer(q, s, s') && Run(q, s) == Run(q, s')
  {
  }

  lemma {:induction false} StepSkips(q: Search, s: State)
    requires Valid(q) && Ready(q, s) && |s.open| > 0 && Popped(s).pos in s.visited
    ensures Step(q, s) == Continue(s.(open := SortByScore(s.open)[1..]))
  {
  }

  lemma {:induction false} StepReaches(q: Search, s: State)
    requires Valid(q) && Ready(q, s) && |s.open| > 0
    requires Popped(s).pos !in s.visited && Popped(s).pos == q.goal && Within(Last(s.steps), Popped(s).pos)
    ensures Step(q, s) == Done(Outcome(Mark(s.steps, Popped(s).pos, Current), true, Popped(s).path))
  {
  }

  lemma {:induction false} StepExpands(q: Search, s: State, cur: Scored, rest: seq<Scored>, steps1: seq<Grid>, open: seq<Scored>, steps': seq<Grid>)
    requires Valid(q) && Ready(q, s) && |s.open| > 0
    requires cur == Popped(s) && rest == SortByScore(s.open)[1..]
    requires cur.pos !in s.visited && cur.pos != q.goal && Within(Last(s.steps), cur.pos)
    requires steps1 == Mark(s.steps, cur.pos, Current) && Shaped(Last(steps1), q.rows, q.cols)
    requires open == PushFrom(q, cur, s.visited + {cur.pos}, 0, rest)
    requires AllIn(q, Positions(open)) && steps' == Expand(q, steps1, cur.pos, Positions(open))
    ensures Step(q, s) == Continue(State(steps', open, s.visited + {cur.pos}))
  {
    SortedRest(q, s.open);
  }

  /** One entry of the direction scan. */
  lemma {:induction false} PushStep(q: Search, cur: Scored, visited: set<Pos>, k: nat, open: seq<Scored>)
    requires Valid(q) && k < |SweepDirections|
    ensures var n := Move(cur.pos, SweepDirections[k]);
            InBounds(n, q.rows, q.cols) ==> Within(q.grid, n)
    ensures var n := Move(cur.pos, SweepDirections[k]);
            PushFrom(q, cur, visited, k, open) ==
            PushFrom(q, cur, visited, k + 1,
                     if InBounds(n, q.rows, q.cols) && n !in visited && At(q.grid, n) != Wall
                     then open + [Scored(n, (Abs(n.row - q.goal.row) + Abs(n.col - q.goal.col)) as real, cur.path + [n])]
                     else open)
  {
  }

  /** The `for` loop over the directions. */
  method PushNeighbors(q: Search, cur: Scored, visited: set<Pos>, open: seq<Scored>) returns (open': seq<Scored>)
    requires Valid(q)
    ensures open' == PushFrom(q, cur, visited, 0, open)
  {
    open' := open;
    for k := 0 to |SweepDirections|
      invariant PushFrom(q, cur, visited, k, open') == PushFrom(q, cur, visited, 0, open)
    {
      var n := Move(cur.pos, SweepDirections[k]);
      PushStep(q, cur, visited, k, open');
      if 0 <= n.row < q.rows && 0 <= n.col < q.cols && n !in visited && At(q.grid, n) != Wall {
        var h := Abs(n.row - q.goal.row) + Abs(n.col - q.goal.col);
        open' := open' + [Scored(n, h as real, cur.path + [n])];
      }
    }
  }

  /** The rest of an expansion once `cur` is visited: the "visited" snapshot,
      the scan of the directions and the frontier snapshot. */
  method ExpandCell(q: Search, steps: seq<Grid>, cur: Scored, visited: set<Pos>, open: seq<Scored>)
    returns (steps': seq<Grid>, open': seq<Scored>)
    requires Valid(q) && |steps| > 0 && Shaped(Last(steps), q.rows, q.cols)
    requires InBounds(cur.pos, q.rows, q.cols) && AllIn(q, cur.path) && Inside(q, open)
    ensures open' == PushFrom(q, cur, visited, 0, open)
    ensures AllIn(q, Positions(open')) && steps' == Expand(q, steps, cur.pos, Positions(open'))
  {
    steps' := steps;
    var visitedGrid := Last(steps');
    if At(visitedGrid, cur.pos) != Start && At(visitedGrid, cur.pos) != Goal {
      visitedGrid := Paint(visitedGrid, cur.pos, Visited);
      steps' := steps' + [visitedGrid];
    }
    open' := PushNeighbors(q, cur, visited, open);
    PushInside(q, cur, visited, open);
    InsidePositions(q, open');
    MarkShaped(q, steps, cur.pos, Visited);
    ShapedWithin(q, Last(steps'), Positions(open'));
    var frontier := MarkFrontier(Last(steps'), Positions(open'));
    steps' := steps' + [frontier];
  }

  /** `computeGreedyBestFirstSteps`, step by step as the source runs it. */
  method ComputeGreedyBestFirstSteps(grid: Grid, start: Pos, goal: Pos, rows: int, cols: int) returns (r: PathResult)
    requires Valid(Search(grid, start, goal, rows, cols))
    ensures r == Trace(Search(grid, start, goal, rows, cols))
  {
    var q := Search(grid, start, goal, rows, cols);
    var steps := [grid];
    var open := [Scored(start, 0.0, [start])];
    var visited: set<Pos> := {};
    var pathFound := false;
    var finalPath: seq<Pos> := [];
    var frontier := MarkFrontier(grid, Positions(open));
    steps := steps + [frontier];
    assert Positions(open) == [start];
    assert State(steps, open, visited) == Init(q);

    while |open| > 0
      invariant Ready(q, State(steps, open, visited))
      invariant Run(q, State(steps, open, visited)) == Run(q, Init(q))
      invariant !pathFound && finalPath == []
      decreases AllCells(q) - visited, |open|
    {
      ghost var s := State(steps, open, visited);
      var sorted := SortByScore(open);
      SortedRest(q, open);
      var cur := sorted[0];
      open := sorted[1..];
      if cur.pos in visited {
        StepSkips(q, s);
        RunContinues(q, s, State(steps, open, visited));
        continue;
      }
      steps := MarkCurrent(q, steps, cur.pos);
      if cur.pos == goal {
        pathFound := true;
        finalPath := cur.path;
        StepReaches(q, s);
        break;
      }
      visited := visited + {cur.pos};
      ghost var steps1 := steps;
      ghost var rest := open;
      steps, open := ExpandCell(q, steps, cur, visited, open);
      StepExpands(q, s, cur, rest, steps1, open, steps);
      RunContinues(q, s, State(steps, open, visited));
    }
    assert Run(q, Init(q)) == Outcome(steps, pathFound, finalPath);

    if pathFound && |finalPath| > 0 {
      ShapedWithin(q, Last(steps), finalPath);
      steps := DrawPath(steps, finalPath);
    }
    r := PathResult(steps, pathFound);
  }
}
