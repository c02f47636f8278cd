/** `computeAStarSteps` of app/utils/PathingAlgorithms.tsx: A* over the grid
    with unit step costs, an open list sorted by fScore before every pop, a
    closed set and a gScore map, recording a snapshot per change. */
module AStar {
  import opened Grids
  import opened Neighbours
  import opened OpenLists
  import opened Searches

  /** `heuristic(a, b)`: a Euclidean distance computed in floating point. The
      model takes it as a parameter and proves nothing that depends on its values. */
  type Heuristic = (Pos, Pos) -> real

  /** The loop state: `steps`, `openSet`, `closedSet`, `gScore` and `iterations`. */
  datatype State = State(steps: seq<Grid>, open: seq<Scored>, closed: set<Pos>, g: map<Pos, int>, iterations: int)

  /** One pass of the `while` loop ends in the next state or leaves the loop. */
  datatype Next = Continue(s: State) | Done(o: Outcome)

  /** The open list and the gScore map while the neighbours are processed. */
  datatype Table = Table(open: seq<Scored>, g: map<Pos, int>)

  /** What a pass needs to index the snapshot it copies. */
  predicate Ready(q: Search, s: State) {
    |s.steps| > 0 && Shaped(Last(s.steps), q.rows, q.cols) && Inside(q, s.open)
  }

  /** `gScore.get(key) || 0`. */
  function GScore(g: map<Pos, int>, p: Pos): int {
    if p in g then g[p] else 0
  }

  /** `tentative < (gScore.get(key) || Infinity)`: a stored 0 reads as missing. */
  predicate Better(g: map<Pos, int>, n: Pos, tentative: int) {
    n !in g || g[n] == 0 || tentative < g[n]
  }

  /** One neighbour `n` of `cur`: skipped when closed; otherwise, on a better
      gScore, recorded with fScore `g + 2 h` and the path extended by `n`,
      updating its open entry in place or appending a new one. */
  function Relax(q: Search, h: Heuristic, cur: Scored, closed: set<Pos>, n: Pos, t: Table): Table {
    if n in closed then t
    else
      var tentative := GScore(t.g, cur.pos) + 1;
      if Better(t.g, n, tentative) then
        var e := Scored(n, tentative as real + h(n, q.goal) * 2.0, cur.path + [n]);
        var k := FindIndex(t.open, n);
        Table(if k == -1 then t.open + [e] else t.open[k := e], t.g[n := tentative])
      else t
  }

  /** The loop "Process each neighbor", in neighbour order. */
  function RelaxAll(q: Search, h: Heuristic, cur: Scored, closed: set<Pos>, ns: seq<Pos>, t: Table): Table
    decreases |ns|
  {
    if ns == [] then t else RelaxAll(q, h, cur, closed, ns[1..], Relax(q, h, cur, closed, ns[0], t))
  }

  /** Every entry after the neighbours are processed was there before or is
      a neighbour carrying the current path extended by itself. */
  lemma {:induction false} RelaxAllMembers(q: Search, h: Heuristic, cur: Scored, closed: set<Pos>, ns: seq<Pos>, t: Table)
    ensures forall e :: e in RelaxAll(q, h, cur, closed, ns, t).open ==>
              e in t.open || (e.pos in ns && e.path == cur.path + [e.pos])
    decreases |ns|
  {
    if ns != [] {
      var t' := Relax(q, h, cur, closed, ns[0], t);
      RelaxAllMembers(q, h, cur, closed, ns[1..], t');
      var k := FindIndex(t.open, ns[0]);
      if ns[0] !in closed && Better(t.g, ns[0], GScore(t.g, cur.pos) + 1) && k != -1 {
        UpdateMembers(t.open, k, t'.open[k]);
      }
      forall e | e in RelaxAll(q, h, cur, closed, ns, t).open
        ensures e in t.open || (e.pos in ns && e.path == cur.path + [e.pos])
      {
        if e !in t'.open {
          assert e.pos in ns[1..];
        }
      }
    }
  }

  lemma {:induction false} RelaxAllInside(q: Search, h: Heuristic, cur: Scored, closed: set<Pos>, ns: seq<Pos>, t: Table)
    requires Inside(q, t.open) && AllIn(q, cur.path) && AllIn(q, ns)
    ensures Inside(q, RelaxAll(q, h, cur, closed, ns, t).open)
  {
    RelaxAllMembers(q, h, cur, closed, ns, t);
    forall e | e in RelaxAll(q, h, cur, closed, ns, t).open
      ensures InBounds(e.pos, q.rows, q.cols) && AllIn(q, e.path)
    {
      if e !in t.open {
        var i :| 0 <= i < |ns| && ns[i] == e.pos;
      }
    }
  }

  /** The entry the pass takes: the head of the open list sorted by fScore. */
  function Popped(s: State): Scored
    requires |s.open| > 0
  {
    SortByScore(s.open)[0]
  }

  /** One pass of the search loop. */
  function Step(q: Search, h: Heuristic, s: State): (r: Next)
    requires Valid(q) && Ready(q, s)
    ensures r.Continue? ==> Ready(q, r.s) && r.s.iterations == s.iterations + 1 <= Cap(q)
    ensures r.Done? ==> |r.o.steps| > 0 && Shaped(Last(r.o.steps), q.rows, q.cols) && AllIn(q, r.o.path)
    ensures s.iterations + 1 > Cap(q) ==> r.Done? && !r.o.found
  {
    if |s.open| == 0 then Done(Outcome(s.steps, false, []))
    else if s.iterations + 1 > Cap(q) then Done(Outcome(s.steps, false, []))
    else
      var sorted := SortByScore(s.open);
      SortedRest(q, s.open);
      Visit(q, h, s, sorted[0], sorted[1..])
  }

  /** The pass once `cur` is shifted off the sorted list, leaving `rest`:
      skip it when closed, stop on the goal, expand it otherwise. */
  function Visit(q: Search, h: Heuristic, s: State, cur: Scored, rest: seq<Scored>): (r: Next)
    requires Valid(q) && Ready(q, s) && s.iterations + 1 <= Cap(q) && Inside(q, rest)
    requires InBounds(cur.pos, q.rows, q.cols) && AllIn(q, cur.path)
    ensures r.Continue? ==> Ready(q, r.s) && r.s.iterations == s.iterations + 1 <= Cap(q)
    ensures r.Done? ==> |r.o.steps| > 0 && Shaped(Last(r.o.steps), q.rows, q.cols) && AllIn(q, r.o.path)
  {
    if cur.pos in s.closed then Continue(s.(open := rest, iterations := s.iterations + 1))
    else
      var steps1 := Mark(s.steps, cur.pos, Current);
      MarkShaped(q, s.steps, cur.pos, Current);
      if cur.pos == q.goal then Done(Outcome(steps1, true, cur.path))
      else Continue(Expanded(q, h, s, cur, rest))
  }

  /** The state after `cur` is expanded: marked current, closed, its
      neighbours relaxed, then the "visited" and frontier snapshots. */
  function Expanded(q: Search, h: Heuristic, s: State, cur: Scored, rest: seq<Scored>): (s': State)
    requires Valid(q) && Ready(q, s) && s.iterations + 1 <= Cap(q) && Inside(q, rest)
    requires InBounds(cur.pos, q.rows, q.cols) && AllIn(q, cur.path)
    ensures Ready(q, s') && s'.iterations == s.iterations + 1
  {
    var steps1 := Mark(s.steps, cur.pos, Current);
    MarkShaped(q, s.steps, cur.pos, Current);
    var closed := s.closed + {cur.pos};
    var ns := Neighbors(AStarDirections, cur.pos, q.grid, q.rows, q.cols);
    CompassTables();
    NeighborsExactly(AStarDirections, cur.pos, q.grid, q.rows, q.cols);
    var t := RelaxAll(q, h, cur, closed, ns, Table(rest, s.g));
    RelaxAllInside(q, h, cur, closed, ns, Table(rest, s.g));
    InsidePositions(q, t.open);
    State(Expand(q, steps1, cur.pos, Positions(t.open)), t.open, closed, t.g, s.iterations + 1)
  }

  /** The search loop from state `s` until it leaves. */
  function Run(q: Search, h: Heuristic, s: State): (o: Outcome)
    requires Valid(q) && Ready(q, s) && s.iterations <= Cap(q)
    ensures |o.steps| > 0 && Shaped(Last(o.steps), q.rows, q.cols) && AllIn(q, o.path)
    decreases Cap(q) - s.iterations
  {
    match Step(q, h, s)
    case Continue(s') => Run(q, h, s')
    case Done(o) => o
  }

  /** The state before the loop: the grid copy and the first frontier snapshot,
      the start alone in the open list with fScore `h(start, goal)`, nothing
      closed, and gScore 0 at the start. */
  function Init(q: Search, h: Heuristic): (s: State)
    requires Valid(q)
    ensures Ready(q, s)
  {
    State([q.grid, FrontierOf(q.grid, [q.start])], [Scored(q.start, h(q.start, q.goal), [q.start])],
          {}, map[q.start := 0], 0)
  }

  /** `computeAStarSteps(grid, start, goal, rows, cols)`. */
  function Trace(q: Search, h: Heuristic): PathResult
    requires Valid(q)
  {
    var o := Run(q, h, Init(q, h));
    ShapedWithin(q, Last(o.steps), o.path);
    PathResult(Finish(o), o.found)
  }

  // ------------------------------------------------------------ soundness

  /** What every pass keeps: the snapshots open with the grid and the start's
      frontier and are all kept, and every open entry carries a walk. */
  ghost predicate Inv(q: Search, s: State) {
    Valid(q) && Ready(q, s) && Opens(q, s.steps) && AllKept(q, s.steps) && Walks(q, s.open)
  }

  lemma {:induction false} RelaxAllWalks(q: Search, h: Heuristic, cur: Scored, closed: set<Pos>, ns: seq<Pos>, t: Table)
    requires Walks(q, t.open) && Walk(q, cur.path, cur.pos)
    requires forall i :: 0 <= i < |ns| ==> Adjacent(cur.pos, ns[i]) && Passable(q.grid, q.rows, q.cols, ns[i])
    ensures Walks(q, RelaxAll(q, h, cur, closed, ns, t).open)
  {
    RelaxAllMembers(q, h, cur, closed, ns, t);
    forall e | e in RelaxAll(q, h, cur, closed, ns, t).open ensures Walk(q, e.path, e.pos) {
      if e !in t.open {
        var i :| 0 <= i < |ns| && ns[i] == e.pos;
        WalkExtend(q, cur.path, cur.pos, e.pos);
      }
    }
  }

  lemma {:induction false} StepSound(q: Search, h: Heuristic, s: State)
    requires Inv(q, s)
    ensures match Step(q, h, s)
            case Continue(s') => Inv(q, s')
            case Done(o) => Sound(q, o)
  {
    if |s.open| > 0 && s.iterations + 1 <= Cap(q) {
      var sorted := SortByScore(s.open);
      SortedRest(q, s.open);
      var cur := sorted[0];
      if cur.pos !in s.closed {
        assert Walk(q, cur.path, cur.pos);
        WalkPaintable(q, cur.path, cur.pos);
        assert Paintable(q, cur.path[|cur.path| - 1]);
        var steps1 := Mark(s.steps, cur.pos, Current);
        KeptMark(q, s.steps, cur.pos, Current);
        assert steps1[..|s.steps|] == s.steps;
        OpensExtend(q, s.steps, steps1);
        if cur.pos != q.goal {
          var closed := s.closed + {cur.pos};
          var ns := Neighbors(AStarDirections, cur.pos, q.grid, q.rows, q.cols);
          CompassTables();
          NeighborsExactly(AStarDirections, cur.pos, q.grid, q.rows, q.cols);
          var t := RelaxAll(q, h, cur, closed, ns, Table(sorted[1..], s.g));
          RelaxAllWalks(q, h, cur, closed, ns, Table(sorted[1..], s.g));
          WalksInside(q, t.open);
          ExpandKept(q, s.steps, cur.pos, Positions(t.open));
          ExpandExpansion(q, s.steps, cur.pos, Positions(t.open));
          OpensExtend(q, s.steps, Expand(q, steps1, cur.pos, Positions(t.open)));
        }
      }
    }
  }

  lemma {:induction false} RunSound(q: Search, h: Heuristic, s: State)
    requires Inv(q, s) && s.iterations <= Cap(q)
    ensures Sound(q, Run(q, h, s))
    decreases Cap(q) - s.iterations
  {
    StepSound(q, h, s);
    match Step(q, h, s)
    case Continue(s') => RunSound(q, h, s');
    case Done(o) =>
  }

  lemma {:induction false} InitSound(q: Search, h: Heuristic)
    requires Valid(q)
    ensures Inv(q, Init(q, h))
  {
    var s := Init(q, h);
    KeptGrid(q);
    KeptFrontier(q, q.grid, [q.start]);
    KeptAppend(q, [q.grid], FrontierOf(q.grid, [q.start]));
    WalkStart(q);
  }

  /** The trace opens with the grid and the start's frontier, never repaints
      start, goal or a wall, reports a path exactly when the search found a
      walk from start to goal, and then adds one path snapshot per interior
      cell of that walk; without a path nothing is added. */
  lemma {:induction false} TraceSound(q: Search, h: Heuristic)
    requires Valid(q)
    ensures var o := Run(q, h, Init(q, h)); var r := Trace(q, h);
            Opens(q, r.steps) && AllKept(q, r.steps) && r.pathFound == o.found &&
            (o.found ==> Walk(q, o.path, q.goal) &&
                         |r.steps| == |o.steps| + (if |o.path| >= 2 then |o.path| - 2 else 0)) &&
            (!o.found ==> r.steps == o.steps)
  {
    InitSound(q, h);
    RunSound(q, h, Init(q, h));
    FinishSound(q, Run(q, h, Init(q, h)));
  }
  // ------------------------------------------------------------ the open list, closed set and gScore

  /** gScore 0 at the start and nowhere else, and no negative score. */
  predicate Scores(q: Search, g: map<Pos, int>) {
    q.start in g && g[q.start] == 0 && forall p :: p in g ==> g[p] >= 0 && (g[p] == 0 ==> p == q.start)
  }

  /** No open entry names a closed cell. */
  predicate Apart(open: seq<Scored>, closed: set<Pos>) {
    forall e :: e in open ==> e.pos !in closed
  }

  /** Every recorded gScore is still recorded, and no larger. */
  predicate Lowered(g: map<Pos, int>, g': map<Pos, int>) {
    forall p :: p in g ==> p in g' && g'[p] <= g[p]
  }

  /** The open list has one entry per cell and none for a closed cell, gScore
      is 0 only at the start, and the start is closed once anything else is open. */
  predicate Books(q: Search, s: State) {
    Distinct(s.open) && Apart(s.open, s.closed) && Scores(q, s.g) &&
    (q.start in s.closed || forall e :: e in s.open ==> e.pos == q.start)
  }

  lemma {:induction false} RelaxBooks(q: Search, h: Heuristic, cur: Scored, closed: set<Pos>, n: Pos, t: Table)
    requires Distinct(t.open) && Apart(t.open, closed) && Scores(q, t.g) && q.start in closed
    ensures var r := Relax(q, h, cur, closed, n, t);
            Distinct(r.open) && Apart(r.open, closed) && Scores(q, r.g) && Lowered(t.g, r.g)
  {
    var tentative := GScore(t.g, cur.pos) + 1;
    if n !in closed && Better(t.g, n, tentative) {
      var e := Scored(n, tentative as real + h(n, q.goal) * 2.0, cur.path + [n]);
      var k := FindIndex(t.open, n);
      FindIndexFirst(t.open, n);
      if k == -1 {
        var o := t.open + [e];
        forall i, j | 0 <= i < j < |o| ensures o[i].pos != o[j].pos {
          if j == |t.open| {
            assert o[i] == t.open[i];
          }
        }
      } else {
        var o := t.open[k := e];
        UpdateMembers(t.open, k, e);
        forall i | 0 <= i < |o| ensures o[i].pos == t.open[i].pos {
        }
      }
    }
  }

  lemma {:induction false} RelaxAllBooks(q: Search, h: Heuristic, cur: Scored, closed: set<Pos>, ns: seq<Pos>, t: Table)
    requires Distinct(t.open) && Apart(t.open, closed) && Scores(q, t.g) && q.start in closed
    ensures var r := RelaxAll(q, h, cur, closed, ns, t);
            Distinct(r.open) && Apart(r.open, closed) && Scores(q, r.g) && Lowered(t.g, r.g)
    decreases |ns|
  {
    if ns != [] {
      var t' := Relax(q, h, cur, closed, ns[0], t);
      RelaxBooks(q, h, cur, closed, ns[0], t);
      RelaxAllBooks(q, h, cur, closed, ns[1..], t');
    }
  }

  /** A pass keeps the books, and lowers gScores without forgetting any; the
      pop never meets a closed cell, so the `closedSet.has` skip never fires. */
  lemma {:induction false} StepBooks(q: Search, h: Heuristic, s: State)
    requires Valid(q) && Ready(q, s) && Books(q, s)
    ensures |s.open| > 0 ==> Popped(s).pos !in s.closed
    ensures match Step(q, h, s)
            case Continue(s') => Books(q, s') && Lowered(s.g, s'.g)
            case Done(_) => true
  {
    if |s.open| > 0 {
      var sorted := SortByScore(s.open);
      SortedRest(q, s.open);
      SortByScoreDistinct(s.open);
      var cur := sorted[0];
      assert cur.pos !in s.closed;
      if s.iterations + 1 <= Cap(q) && cur.pos != q.goal {
        var closed := s.closed + {cur.pos};
        DistinctRest(sorted);
        assert Apart(sorted[1..], closed);
        var ns := Neighbors(AStarDirections, cur.pos, q.grid, q.rows, q.cols);
        RelaxAllBooks(q, h, cur, closed, ns, Table(sorted[1..], s.g));
      }
    }
  }

  lemma {:induction false} InitBooks(q: Search, h: Heuristic)
    requires Valid(q)
    ensures Books(q, Init(q, h))
  {
  }
  // ------------------------------------------------------------ snapshots of one pass

  /** The snapshots one pass adds: none when the popped cell is closed, the
      "current" snapshot alone when it is the goal, and otherwise a whole
      expansion ending with the frontier of the new open list. */
  lemma {:induction false} StepExpansion(q: Search, h: Heuristic, s: State)
    requires Valid(q) && Ready(q, s) && |s.open| > 0 && s.iterations + 1 <= Cap(q)
    ensures var p := Popped(s);
            Within(Last(s.steps), p.pos) &&
            match Step(q, h, s)
            case Continue(s') =>
              (p.pos in s.closed && s'.steps == s.steps) ||
              (p.pos !in s.closed && p.pos != q.goal && Expansion(s.steps, s'.steps, p.pos, Positions(s'.open)))
            case Done(o) =>
              p.pos !in s.closed && p.pos == q.goal && o.found && o.path == p.path &&
              o.steps == Mark(s.steps, p.pos, Current)
  {
    var sorted := SortByScore(s.open);
    SortedRest(q, s.open);
    var cur := sorted[0];
    if cur.pos !in s.closed && cur.pos != q.goal {
      var closed := s.closed + {cur.pos};
      var ns := Neighbors(AStarDirections, cur.pos, q.grid, q.rows, q.cols);
      CompassTables();
      NeighborsExactly(AStarDirections, cur.pos, q.grid, q.rows, q.cols);
      var t := RelaxAll(q, h, cur, closed, ns, Table(sorted[1..], s.g));
      RelaxAllInside(q, h, cur, closed, ns, Table(sorted[1..], s.g));
      InsidePositions(q, t.open);
      ExpandExpansion(q, s.steps, cur.pos, Positions(t.open));
    }
  }

  /** When start and goal coincide (on a start or goal cell) the trace is the
      grid and the first frontier snapshot, and a path is reported. */
  lemma {:induction false} StartIsGoal(q: Search, h: Heuristic)
    requires Valid(q) && q.start == q.goal && Fixed(At(q.grid, q.start))
    ensures Trace(q, h) == PathResult([q.grid, FrontierOf(q.grid, [q.start])], true)
  {
    var s := Init(q, h);
    assert q.rows >= 1 && q.cols >= 1;
    assert Cap(q) >= 1;
    assert SortByScore(s.open) == s.open;
    StepExpansion(q, h, s);
    FrontierCells(q.grid, [q.start], q.start);
    assert Fixed(At(Last(s.steps), q.start));
    var next := Step(q, h, s);
    assert next.Done? && next.o == Outcome(s.steps, true, [q.start]);
    assert Run(q, h, s) == next.o;
  }

  // ------------------------------------------------------------ the imperative engine

  lemma {:induction false} RunContinues(q: Search, h: Heuristic, s: State, s': State)
    requires Valid(q) && Ready(q, s) && s.iterations <= Cap(q) && Step(q, h, s) == Continue(s')
    ensures Ready(q, s') && s'.iterations <= Cap(q) && Run(q, h, s) == Run(q, h, s')
  {
  }

  /** A pass whose popped cell is closed only shifts it off the sorted list. */
  lemma {:induction false} StepSkips(q: Search, h: Heuristic, s: State)
    requires Valid(q) && Ready(q, s) && |s.open| > 0 && s.iterations + 1 <= Cap(q)
    requires Popped(s).pos in s.closed
    ensures Step(q, h, s) == Continue(s.(open := SortByScore(s.open)[1..], iterations := s.iterations + 1))
  {
  }

  /** A pass whose popped cell is the goal leaves with its path. */
  lemma {:induction false} StepReaches(q: Search, h: Heuristic, s: State)
    requires Valid(q) && Ready(q, s) && |s.open| > 0 && s.iterations + 1 <= Cap(q)
    requires Popped(s).pos !in s.closed && Popped(s).pos == q.goal && Within(Last(s.steps), Popped(s).pos)
    ensures Step(q, h, s) == Done(Outcome(Mark(s.steps, Popped(s).pos, Current), true, Popped(s).path))
  {
  }

  /** A pass that takes a cell neither closed nor the goal expands it. */
  lemma {:induction false} StepExpands(q: Search, h: Heuristic, s: State, cur: Scored, rest: seq<Scored>)
    requires Valid(q) && Ready(q, s) && |s.open| > 0 && s.iterations + 1 <= Cap(q)
    requires cur == Popped(s) && rest == SortByScore(s.open)[1..]
    requires Inside(q, rest) && InBounds(cur.pos, q.rows, q.cols) && AllIn(q, cur.path)
    requires cur.pos !in s.closed && cur.pos != q.goal
    ensures Step(q, h, s) == Continue(Expanded(q, h, s, cur, rest))
  {
    SortedRest(q, s.open);
  }

  /** The expanded state, from its parts as the loop computes them. */
  lemma {:induction false} ExpandedParts(q: Search, h: Heuristic, s: State, cur: Scored, rest: seq<Scored>,
                      steps1: seq<Grid>, ns: seq<Pos>, t: Table, steps': seq<Grid>)
    requires Valid(q) && Ready(q, s) && s.iterations + 1 <= Cap(q) && Inside(q, rest)
    requires InBounds(cur.pos, q.rows, q.cols) && AllIn(q, cur.path)
    requires steps1 == Mark(s.steps, cur.pos, Current)
    requires ns == Neighbors(AStarDirections, cur.pos, q.grid, q.rows, q.cols)
    requires t == RelaxAll(q, h, cur, s.closed + {cur.pos}, ns, Table(rest, s.g))
    requires Shaped(Last(steps1), q.rows, q.cols) && AllIn(q, Positions(t.open))
    requires steps' == Expand(q, steps1, cur.pos, Positions(t.open))
    ensures Expanded(q, h, s, cur, rest) == State(steps', t.open, s.closed + {cur.pos}, t.g, s.iterations + 1)
  {
  }

  /** The neighbour loop on the open list and the gScore map. */
  method RelaxNeighbors(q: Search, h: Heuristic, cur: Scored, closed: set<Pos>, ns: seq<Pos>,
                        open: seq<Scored>, g: map<Pos, int>)
    returns (open': seq<Scored>, g': map<Pos, int>)
    ensures Table(open', g') == RelaxAll(q, h, cur, closed, ns, Table(open, g))
  {
    open', g' := open, g;
    for k := 0 to |ns|
      invariant RelaxAll(q, h, cur, closed, ns[k..], Table(open', g')) == RelaxAll(q, h, cur, closed, ns, Table(open, g))
    {
      var n := ns[k];
      assert ns[k..] == [n] + ns[k + 1..];
      if n in closed {
        continue;
      }
      var tentative := (if cur.pos in g' then g'[cur.pos] else 0) + 1;
      if n !in g' || g'[n] == 0 || tentative < g'[n] {
        g' := g'[n := tentative];
        var e := Scored(n, tentative as real + h(n, q.goal) * 2.0, cur.path + [n]);
        var i := FindIndex(open', n);
        if i != -1 {
          open' := open'[i := e];
        } else {
          open' := open' + [e];
        }
      }
    }
  }

  /** The rest of an expansion once `cur` is closed: the "visited" snapshot,
      the neighbour loop and the frontier snapshot. */
  method ExpandCell(q: Search, h: Heuristic, steps: seq<Grid>, cur: Scored, closed: set<Pos>,
                    open: seq<Scored>, g: map<Pos, int>)
    returns (steps': seq<Grid>, open': seq<Scored>, g': map<Pos, int>)
    requires Valid(q) && |steps| > 0 && Shaped(Last(steps), q.rows, q.cols)
    requires InBounds(cur.pos, q.rows, q.cols) && AllIn(q, cur.path) && Inside(q, open)
    ensures Table(open', g') == RelaxAll(q, h, cur, closed, Neighbors(AStarDirections, cur.pos, q.grid, q.rows, q.cols), Table(open, g))
    ensures AllIn(q, Positions(open')) && steps' == Expand(q, steps, cur.pos, Positions(open'))
  {
    steps' := steps;
    var visitedGrid := Last(steps');
    if At(visitedGrid, cur.pos) != Start && At(visitedGrid, cur.pos) != Goal {
      visitedGrid := Paint(visitedGrid, cur.pos, Visited);
      steps' := steps' + [visitedGrid];
    }
    var ns := GetNeighbors(cur.pos, q.grid, q.rows, q.cols);
    open', g' := RelaxNeighbors(q, h, cur, closed, ns, open, g);
    CompassTables();
    NeighborsExactly(AStarDirections, cur.pos, q.grid, q.rows, q.cols);
    RelaxAllInside(q, h, cur, closed, ns, Table(open, g));
    InsidePositions(q, open');
    MarkShaped(q, steps, cur.pos, Visited);
    ShapedWithin(q, Last(steps'), Positions(open'));
    var frontier := MarkFrontier(Last(steps'), Positions(open'));
    steps' := steps' + [frontier];
  }

  /** `computeAStarSteps`, step by step as the source runs it. */
  method ComputeAStarSteps(grid: Grid, start: Pos, goal: Pos, rows: int, cols: int, h: Heuristic)
    returns (r: PathResult)
    requires Valid(Search(grid, start, goal, rows, cols))
    ensures r == Trace(Search(grid, start, goal, rows, cols), h)
  {
    var q := Search(grid, start, goal, rows, cols);
    var steps := [grid];
    var open := [Scored(start, h(start, goal), [start])];
    var closed: set<Pos> := {};
    var g := map[start := 0];
    var iterations := 0;
    var pathFound := false;
    var finalPath: seq<Pos> := [];
    var frontier := MarkFrontier(grid, Positions(open));
    steps := steps + [frontier];
    assert Positions(open) == [start];
    assert State(steps, open, closed, g, iterations) == Init(q, h);

    while |open| > 0
      invariant Ready(q, State(steps, open, closed, g, iterations)) && iterations <= Cap(q)
      invariant Run(q, h, State(steps, open, closed, g, iterations)) == Run(q, h, Init(q, h))
      invariant !pathFound && finalPath == []
      decreases Cap(q) - iterations
    {
      ghost var s := State(steps, open, closed, g, iterations);
      iterations := iterations + 1;
      if iterations > rows * cols * 2 {
        assert Run(q, h, s) == Outcome(steps, false, []);
        break;
      }
      var sorted := SortByScore(open);
      SortedRest(q, open);
      var cur := sorted[0];
      assert cur == Popped(s);
      open := sorted[1..];
      if cur.pos in closed {
        StepSkips(q, h, s);
        RunContinues(q, h, s, State(steps, open, closed, g, iterations));
        continue;
      }
      steps := MarkCurrent(q, steps, cur.pos);
      if cur.pos == goal {
        pathFound := true;
        finalPath := cur.path;
        StepReaches(q, h, s);
        break;
      }
      closed := closed + {cur.pos};
      ghost var steps1 := steps;
      ghost var rest := open;
      ghost var ns := Neighbors(AStarDirections, cur.pos, q.grid, q.rows, q.cols);
      steps, open, g := ExpandCell(q, h, steps, cur, closed, open, g);
      StepExpands(q, h, s, cur, rest);
      ExpandedParts(q, h, s, cur, rest, steps1, ns, Table(open, g), steps);
      RunContinues(q, h, s, State(steps, open, closed, g, iterations));
    }
    assert Run(q, h, Init(q, h)) == Outcome(steps, pathFound, finalPath);

    if pathFound && |finalPath| > 0 {
      ShapedWithin(q, Last(steps), finalPath);
      steps := DrawPath(steps, finalPath);
    }
    r := PathResult(steps, pathFound);
  }
}
