/** `computeDFSSteps` of app/utils/PathingAlgorithms.tsx: depth-first search
    with an explicit stack of `[position, path]` entries and a visited set,
    stopped after `rows * cols * 2` passes, recording a snapshot per change. */
module DepthFirst {
  import opened Grids
  import opened Neighbours
  import opened Searches

  /** The loop state: `steps`, `stack`, `visited` and `iterations`. */
  datatype State = State(steps: seq<Grid>, stack: seq<Node>, visited: set<Pos>, iterations: int)

  /** One pass of the `while` loop ends in the next state or leaves the loop. */
  datatype Next = Continue(s: State) | Done(o: Outcome)

  /** What a pass needs to index the snapshot it copies. */
  predicate Ready(q: Search, s: State) {
    |s.steps| > 0 && Shaped(Last(s.steps), q.rows, q.cols) && NodesInside(q, s.stack)
  }

  /** "Add neighbors to stack in reverse order": `ns[i - 1]` down to `ns[0]`
      are pushed, each with `path` extended by it, unless visited. */
  function PushReversed(stack: seq<Node>, ns: seq<Pos>, visited: set<Pos>, path: seq<Pos>, i: nat): seq<Node>
    requires i <= |ns|
    decreases i
  {
    if i == 0 then stack
    else
      var n := ns[i - 1];
      PushReversed(if n in visited then stack else stack + [Node(n, path + [n])], ns, visited, path, i - 1)
  }

  /** The stack after pushing holds the old entries and unvisited neighbours
      carrying the path extended by themselves. */
  lemma {:induction false} PushMembers(stack: seq<Node>, ns: seq<Pos>, visited: set<Pos>, path: seq<Pos>, i: nat)
    requires i <= |ns|
    ensures forall e :: e in PushReversed(stack, ns, visited, path, i) ==>
              e in stack || (e.pos in ns[..i] && e.pos !in visited && e.path == path + [e.pos])
    decreases i
  {
    if i > 0 {
      var n := ns[i - 1];
      var stack' := if n in visited then stack else stack + [Node(n, path + [n])];
      PushMembers(stack', ns, visited, path, i - 1);
      forall e | e in PushReversed(stack, ns, visited, path, i)
        ensures e in stack || (e.pos in ns[..i] && e.pos !in visited && e.path == path + [e.pos])
      {
        if e in stack' && e !in stack {
          assert ns[..i][i - 1] == n;
        } else if e !in stack' {
          var j :| 0 <= j < |ns[..i - 1]| && ns[..i - 1][j] == e.pos;
          assert ns[..i][j] == e.pos;
        }
      }
    }
  }

  /** Pushing only visited neighbours leaves the stack as it was. */
  lemma {:induction false} PushNone(stack: seq<Node>, ns: seq<Pos>, visited: set<Pos>, path: seq<Pos>, i: nat)
    requires i <= |ns| && forall j :: 0 <= j < i ==> ns[j] in visited
    ensures PushReversed(stack, ns, visited, path, i) == stack
    decreases i
  {
    if i > 0 {
      PushNone(stack, ns, visited, path, i - 1);
    }
  }

  /** "so right is popped first": the first unvisited neighbour in table
      order ends on top of the stack. */
  lemma {:induction false} PushTop(stack: seq<Node>, ns: seq<Pos>, visited: set<Pos>, path: seq<Pos>, i: nat, j: nat)
    requires j < i <= |ns| && ns[j] !in visited && forall t :: 0 <= t < j ==> ns[t] in visited
    ensures var r := PushReversed(stack, ns, visited, path, i);
            |r| > 0 && r[|r| - 1] == Node(ns[j], path + [ns[j]])
    decreases i
  {
    var n := ns[i - 1];
    var stack' := if n in visited then stack else stack + [Node(n, path + [n])];
    if j < i - 1 {
      PushTop(stack', ns, visited, path, i - 1, j);
    } else {
      PushNone(stack', ns, visited, path, i - 1);
    }
  }

  lemma {:induction false} PushInside(q: Search, stack: seq<Node>, ns: seq<Pos>, visited: set<Pos>, path: seq<Pos>)
    requires NodesInside(q, stack) && AllIn(q, path) && AllIn(q, ns)
    ensures NodesInside(q, PushReversed(stack, ns, visited, path, |ns|))
  {
    PushMembers(stack, ns, visited, path, |ns|);
    assert ns[..|ns|] == ns;
    forall e | e in PushReversed(stack, ns, visited, path, |ns|)
      ensures InBounds(e.pos, q.rows, q.cols) && AllIn(q, e.path)
    {
      if e !in stack {
        var k :| 0 <= k < |ns| && ns[k] == e.pos;
      }
    }
  }

  /** One pass of the search loop. */
  function Step(q: Search, s: State): (r: Next)
    requires Valid(q) && Ready(q, s)
    ensures r.Continue? ==> Ready(q, r.s) && r.s.iterations == s.iterations + 1 <= Cap(q)
    ensures r.Done? ==> |r.o.steps| > 0 && Shaped(Last(r.o.steps), q.rows, q.cols) && AllIn(q, r.o.path)
    ensures s.iterations + 1 > Cap(q) ==> r.Done? && !r.o.found
  {
    if |s.stack| == 0 then Done(Outcome(s.steps, false, []))
    else if s.iterations + 1 > Cap(q) then Done(Outcome(s.steps, false, []))
    else
      NodesDrop(q, s.stack);
      Visit(q, s, s.stack[|s.stack| - 1], s.stack[..|s.stack| - 1])
  }

  /** The pass once `cur` is popped off the stack, leaving `rest`. */
  function Visit(q: Search, s: State, cur: Node, rest: seq<Node>): (r: Next)
    requires Valid(q) && Ready(q, s) && s.iterations + 1 <= Cap(q) && NodesInside(q, rest)
    requires InBounds(cur.pos, q.rows, q.cols) && AllIn(q, cur.path)
    ensures r.Continue? ==> Ready(q, r.s) && r.s.iterations == s.iterations + 1 <= Cap(q)
    ensures r.Done? ==> |r.o.steps| > 0 && Shaped(Last(r.o.steps), q.rows, q.cols) && AllIn(q, r.o.path)
  {
    if cur.pos in s.visited then Continue(s.(stack := rest, iterations := s.iterations + 1))
    else
      var steps1 := Mark(s.steps, cur.pos, Current);
      MarkShaped(q, s.steps, cur.pos, Current);
      if cur.pos == q.goal then Done(Outcome(steps1, true, cur.path))
      else Continue(Expanded(q, s, cur, rest))
  }

  /** The state after `cur` is expanded: marked current, visited, its
      unvisited neighbours pushed, then the "visited" and frontier snapshots. */
  function Expanded(q: Search, s: State, cur: Node, rest: seq<Node>): (s': State)
    requires Valid(q) && Ready(q, s) && s.iterations + 1 <= Cap(q) && NodesInside(q, rest)
    requires InBounds(cur.pos, q.rows, q.cols) && AllIn(q, cur.path)
    ensures Ready(q, s') && s'.iterations == s.iterations + 1
  {
    var steps1 := Mark(s.steps, cur.pos, Current);
    MarkShaped(q, s.steps, cur.pos, Current);
    var visited := s.visited + {cur.pos};
    var ns := Neighbors(DfsDirections, cur.pos, q.grid, q.rows, q.cols);
    CompassTables();
    NeighborsExactly(DfsDirections, cur.pos, q.grid, q.rows, q.cols);
    var stack := PushReversed(rest, ns, visited, cur.path, |ns|);
    PushInside(q, rest, ns, visited, cur.path);
    NodesInsidePositions(q, stack);
    State(Expand(q, steps1, cur.pos, NodePositions(stack)), stack, visited, s.iterations + 1)
  }

  /** The search loop from state `s` until it leaves. */
  function Run(q: Search, s: State): (o: Outcome)
    requires Valid(q) && Ready(q, s) && s.iterations <= Cap(q)
    ensures |o.steps| > 0 && Shaped(Last(o.steps), q.rows, q.cols) && AllIn(q, o.path)
    decreases Cap(q) - s.iterations
  {
    match Step(q, s)
    case Continue(s') => Run(q, s')
    case Done(o) => o
  }

  /** The state before the loop: the grid copy and the first frontier snapshot,
      the start alone on the stack, nothing visited. */
  function Init(q: Search): (s: State)
    requires Valid(q)
    ensures Ready(q, s)
  {
    State([q.grid, FrontierOf(q.grid, [q.start])], [Node(q.start, [q.start])], {}, 0)
  }

  /** `computeDFSSteps(grid, start, goal, rows, cols)`. */
  function Trace(q: Search): PathResult
    requires Valid(q)
  {
    var o := Run(q, Init(q));
    ShapedWithin(q, Last(o.steps), o.path);
    PathResult(Finish(o), o.found)
  }

  // ------------------------------------------------------------ soundness

  /** What every pass keeps: the snapshots open with the grid and the start's
      frontier and are all kept, and every stack entry carries a walk. */
  ghost predicate Inv(q: Search, s: State) {
    Valid(q) && Ready(q, s) && Opens(q, s.steps) && AllKept(q, s.steps) && NodesWalk(q, s.stack)
  }

  lemma {:induction false} PushWalks(q: Search, stack: seq<Node>, ns: seq<Pos>, visited: set<Pos>, cur: Node)
    requires NodesWalk(q, stack) && Walk(q, cur.path, cur.pos)
    requires forall i :: 0 <= i < |ns| ==> Adjacent(cur.pos, ns[i]) && Passable(q.grid, q.rows, q.cols, ns[i])
    ensures NodesWalk(q, PushReversed(stack, ns, visited, cur.path, |ns|))
  {
    PushMembers(stack, ns, visited, cur.path, |ns|);
    assert ns[..|ns|] == ns;
    forall e | e in PushReversed(stack, ns, visited, cur.path, |ns|) ensures Walk(q, e.path, e.pos) {
      if e !in stack {
        var k :| 0 <= k < |ns| && ns[k] == e.pos;
        WalkExtend(q, cur.path, cur.pos, e.pos);
      }
    }
  }

  lemma {:induction false} StepSound(q: Search, s: State)
    requires Inv(q, s)
    ensures match Step(q, s)
            case Continue(s') => Inv(q, s')
            case Done(o) => Sound(q, o)
  {
    if |s.stack| > 0 && s.iterations + 1 <= Cap(q) {
      NodesDrop(q, s.stack);
      var cur := s.stack[|s.stack| - 1];
      var rest := s.stack[..|s.stack| - 1];
      if cur.pos !in s.visited {
        assert Walk(q, cur.path, cur.pos);
        WalkPaintable(q, cur.path, cur.pos);
        assert Paintable(q, cur.path[|cur.path| - 1]);
        var steps1 := Mark(s.steps, cur.pos, Current);
        KeptMark(q, s.steps, cur.pos, Current);
        assert steps1[..|s.steps|] == s.steps;
        OpensExtend(q, s.steps, steps1);
        if cur.pos != q.goal {
          var visited := s.visited + {cur.pos};
          var ns := Neighbors(DfsDirections, cur.pos, q.grid, q.rows, q.cols);
          CompassTables();
          NeighborsExactly(DfsDirections, cur.pos, q.grid, q.rows, q.cols);
          var stack := PushReversed(rest, ns, visited, cur.path, |ns|);
          PushWalks(q, rest, ns, visited, cur);
          NodesWalkInside(q, stack);
          ExpandKept(q, s.steps, cur.pos, NodePositions(stack));
          ExpandExpansion(q, s.steps, cur.pos, NodePositions(stack));
          OpensExtend(q, s.steps, Expand(q, steps1, cur.pos, NodePositions(stack)));
        }
      }
    }
  }

  lemma {:induction false} RunSound(q: Search, s: State)
    requires Inv(q, s) && s.iterations <= Cap(q)
    ensures Sound(q, Run(q, s))
    decreases Cap(q) - s.iterations
  {
    StepSound(q, s);
    match Step(q, s)
    case Continue(s') => RunSound(q, s');
    case Done(o) =>
  }

  lemma {:induction false} InitSound(q: Search)
    requires Valid(q)
    ensures Inv(q, Init(q))
  {
    KeptGrid(q);
    KeptFrontier(q, q.grid, [q.start]);
    KeptAppend(q, [q.grid], FrontierOf(q.grid, [q.start]));
    WalkStart(q);
  }

  /** The trace opens with the grid and the start's frontier, never repaints
      start, goal or a wall, reports a path exactly when the search found a
      walk from start to goal, and then adds one path snapshot per interior
      cell of that walk; without a path nothing is added. */
  lemma {:induction false} TraceSound(q: Search)
    requires Valid(q)
    ensures var o := Run(q, Init(q)); var r := Trace(q);
            Opens(q, r.steps) && AllKept(q, r.steps) && r.pathFound == o.found &&
            (o.found ==> Walk(q, o.path, q.goal) &&
                         |r.steps| == |o.steps| + (if |o.path| >= 2 then |o.path| - 2 else 0)) &&
            (!o.found ==> r.steps == o.steps)
  {
    InitSound(q);
    RunSound(q, Init(q));
    FinishSound(q, Run(q, Init(q)));
  }

  // ------------------------------------------------------------ snapshots of one pass

  /** The snapshots one pass adds: none when the popped cell was visited, the
      "current" snapshot alone when it is the goal, and otherwise a whole
      expansion of a cell not visited before, ending with the frontier of the
      new stack; the expanded cell joins the visited set. */
  lemma {:induction false} StepExpansion(q: Search, s: State)
    requires Valid(q) && Ready(q, s) && |s.stack| > 0 && s.iterations + 1 <= Cap(q)
    ensures var p := s.stack[|s.stack| - 1];
            Within(Last(s.steps), p.pos) &&
            match Step(q, s)
            case Continue(s') =>
              (p.pos in s.visited && s'.steps == s.steps && s'.stack == s.stack[..|s.stack| - 1]) ||
              (p.pos !in s.visited && p.pos != q.goal && s'.visited == s.visited + {p.pos} &&
               Expansion(s.steps, s'.steps, p.pos, NodePositions(s'.stack)))
            case Done(o) =>
              p.pos !in s.visited && p.pos == q.goal && o.found && o.path == p.path &&
              o.steps == Mark(s.steps, p.pos, Current)
  {
    NodesDrop(q, s.stack);
    var cur := s.stack[|s.stack| - 1];
    var rest := s.stack[..|s.stack| - 1];
    if cur.pos !in s.visited && cur.pos != q.goal {
      StepExpands(q, s, cur, rest);
      ExpandedExpansion(q, s, cur, rest);
    }
  }

  /** An expansion adds the snapshots `Expansion` describes. */
  lemma {:induction false} ExpandedExpansion(q: Search, s: State, cur: Node, rest: seq<Node>)
    requires Valid(q) && Ready(q, s) && s.iterations + 1 <= Cap(q) && NodesInside(q, rest)
    requires InBounds(cur.pos, q.rows, q.cols) && AllIn(q, cur.path)
    ensures var s' := Expanded(q, s, cur, rest);
            s'.visited == s.visited + {cur.pos} && Expansion(s.steps, s'.steps, cur.pos, NodePositions(s'.stack))
  {
    var visited := s.visited + {cur.pos};
    var ns := Neighbors(DfsDirections, cur.pos, q.grid, q.rows, q.cols);
    CompassTables();
    NeighborsExactly(DfsDirections, cur.pos, q.grid, q.rows, q.cols);
    var stack := PushReversed(rest, ns, visited, cur.path, |ns|);
    PushInside(q, rest, ns, visited, cur.path);
    NodesInsidePositions(q, stack);
    ExpandExpansion(q, s.steps, cur.pos, NodePositions(stack));
  }

  /** The stack an expansion leaves: the rest of the stack with the
      unvisited neighbours in the order right, down, left, up pushed in
      reverse, so that `PushMembers` and `PushTop` describe it. */
  lemma {:induction false} StepStack(q: Search, s: State)
    requires Valid(q) && Ready(q, s) && |s.stack| > 0 && s.iterations + 1 <= Cap(q)
    ensures var p := s.stack[|s.stack| - 1];
            var ns := Neighbors(DfsDirections, p.pos, q.grid, q.rows, q.cols);
            Step(q, s).Continue? && p.pos !in s.visited ==>
              Step(q, s).s.stack == PushReversed(s.stack[..|s.stack| - 1], ns, s.visited + {p.pos}, p.path, |ns|)
  {
  }

  /** When start and goal coincide (on a start or goal cell) the trace is the
      grid and the first frontier snapshot, and a path is reported. */
  lemma {:induction false} StartIsGoal(q: Search)
    requires Valid(q) && q.start == q.goal && Fixed(At(q.grid, q.start))
    ensures Trace(q) == PathResult([q.grid, FrontierOf(q.grid, [q.start])], true)
  {
    var s := Init(q);
    assert q.rows >= 1 && q.cols >= 1;
    assert Cap(q) >= 1;
    StepExpansion(q, s);
    FrontierCells(q.grid, [q.start], q.start);
    assert Fixed(At(Last(s.steps), q.start));
    var next := Step(q, s);
    assert next.Done? && next.o == Outcome(s.steps, true, [q.start]);
    assert Run(q, s) == next.o;
  }

  // ------------------------------------------------------------ the imperative engine

  lemma {:induction false} RunContinues(q: Search, s: State, s': State)
    requires Valid(q) && Ready(q, s) && s.iterations <= Cap(q) && Step(q, s) == Continue(s')
    ensures Ready(q, s') && s'.iterations <= Cap(q) && Run(q, s) == Run(q, s')
  {
  }

  /** A pass that pops a visited cell only drops it. */
  lemma {:induction false} StepSkips(q: Search, s: State)
    requires Valid(q) && Ready(q, s) && |s.stack| > 0 && s.iterations + 1 <= Cap(q)
    requires s.stack[|s.stack| - 1].pos in s.visited
    ensures Step(q, s) == Continue(s.(stack := s.stack[..|s.stack| - 1], iterations := s.iterations + 1))
  {
  }

  /** A pass that pops the goal leaves with its path. */
  lemma {:induction false} StepReaches(q: Search, s: State)
    requires Valid(q) && Ready(q, s) && |s.stack| > 0 && s.iterations + 1 <= Cap(q)
    requires var p := s.stack[|s.stack| - 1]; p.pos !in s.visited && p.pos == q.goal && Within(Last(s.steps), p.pos)
    ensures var p := s.stack[|s.stack| - 1];
            Step(q, s) == Done(Outcome(Mark(s.steps, p.pos, Current), true, p.path))
  {
  }

  /** A pass that expands a cell other than the goal. */
  lemma {:induction false} StepExpands(q: Search, s: State, cur: Node, rest: seq<Node>)
    requires Valid(q) && Ready(q, s) && |s.stack| > 0 && s.iterations + 1 <= Cap(q)
    requires cur == s.stack[|s.stack| - 1] && rest == s.stack[..|s.stack| - 1]
    requires NodesInside(q, rest) && InBounds(cur.pos, q.rows, q.cols) && AllIn(q, cur.path)
    requires cur.pos !in s.visited && cur.pos != q.goal
    ensures Step(q, s) == Continue(Expanded(q, s, cur, rest))
  {
  }

  /** The expanded state, from its parts as the loop computes them. */
  lemma {:induction false} ExpandedParts(q: Search, s: State, cur: Node, rest: seq<Node>,
                      steps1: seq<Grid>, ns: seq<Pos>, stack: seq<Node>, steps': seq<Grid>)
    requires Valid(q) && Ready(q, s) && s.iterations + 1 <= Cap(q) && NodesInside(q, rest)
    requires InBounds(cur.pos, q.rows, q.cols) && AllIn(q, cur.path)
    requires steps1 == Mark(s.steps, cur.pos, Current) && Shaped(Last(steps1), q.rows, q.cols)
    requires ns == Neighbors(DfsDirections, cur.pos, q.grid, q.rows, q.cols)
    requires stack == PushReversed(rest, ns, s.visited + {cur.pos}, cur.path, |ns|)
    requires AllIn(q, NodePositions(stack)) && steps' == Expand(q, steps1, cur.pos, NodePositions(stack))
    ensures Expanded(q, s, cur, rest) == State(steps', stack, s.visited + {cur.pos}, s.iterations + 1)
  {
  }

  /** The `for` loop over the neighbours from the last to the first, pushing
      each unvisited one with `path` extended by it. */
  method PushNeighbors(stack: seq<Node>, ns: seq<Pos>, visited: set<Pos>, path: seq<Pos>) returns (stack': seq<Node>)
    ensures stack' == PushReversed(stack, ns, visited, path, |ns|)
  {
    stack' := stack;
    var i := |ns|;
    while i > 0
      invariant 0 <= i <= |ns|
      invariant PushReversed(stack', ns, visited, path, i) == PushReversed(stack, ns, visited, path, |ns|)
    {
      var n := ns[i - 1];
      if n !in visited {
        stack' := stack' + [Node(n, path + [n])];
      }
      i := i - 1;
    }
  }

  /** The rest of an expansion once `cur` is visited: the "visited" snapshot,
      the reversed push of the unvisited neighbours and the frontier snapshot. */
  method ExpandCell(q: Search, steps: seq<Grid>, cur: Node, visited: set<Pos>, stack: seq<Node>)
    returns (steps': seq<Grid>, stack': seq<Node>)
    requires Valid(q) && |steps| > 0 && Shaped(Last(steps), q.rows, q.cols)
    requires InBounds(cur.pos, q.rows, q.cols) && AllIn(q, cur.path) && NodesInside(q, stack)
    ensures var ns := Neighbors(DfsDirections, cur.pos, q.grid, q.rows, q.cols);
            stack' == PushReversed(stack, ns, visited, cur.path, |ns|)
    ensures AllIn(q, NodePositions(stack')) && steps' == Expand(q, steps, cur.pos, NodePositions(stack'))
  {
    steps' := steps;
    var visitedGrid := Last(steps');
    if At(visitedGrid, cur.pos) != Start && At(visitedGrid, cur.pos) != Goal {
      visitedGrid := Paint(visitedGrid, cur.pos, Visited);
      steps' := steps' + [visitedGrid];
    }
    var ns := GetNeighborsInOrder(cur.pos, q.grid, q.rows, q.cols);
    stack' := PushNeighbors(stack, ns, visited, cur.path);
    CompassTables();
    NeighborsExactly(DfsDirections, cur.pos, q.grid, q.rows, q.cols);
    PushInside(q, stack, ns, visited, cur.path);
    NodesInsidePositions(q, stack');
    MarkShaped(q, steps, cur.pos, Visited);
    ShapedWithin(q, Last(steps'), NodePositions(stack'));
    var frontier := MarkFrontier(Last(steps'), NodePositions(stack'));
    steps' := steps' + [frontier];
  }

  /** `computeDFSSteps`, step by step as the source runs it. */
  method ComputeDFSSteps(grid: Grid, start: Pos, goal: Pos, rows: int, cols: int) returns (r: PathResult)
    requires Valid(Search(grid, start, goal, rows, cols))
    ensures r == Trace(Search(grid, start, goal, rows, cols))
  {
    var q := Search(grid, start, goal, rows, cols);
    var steps := [grid];
    var stack := [Node(start, [start])];
    var visited: set<Pos> := {};
    var iterations := 0;
    var pathFound := false;
    var finalPath: seq<Pos> := [];
    var frontier := MarkFrontier(grid, NodePositions(stack));
    steps := steps + [frontier];
    assert NodePositions(stack) == [start];
    assert State(steps, stack, visited, iterations) == Init(q);

    while |stack| > 0
      invariant Ready(q, State(steps, stack, visited, iterations)) && iterations <= Cap(q)
      invariant Run(q, State(steps, stack, visited, iterations)) == Run(q, Init(q))
      invariant !pathFound && finalPath == []
      decreases Cap(q) - iterations
    {
      ghost var s := State(steps, stack, visited, iterations);
      iterations := iterations + 1;
      if iterations > rows * cols * 2 {
        assert Run(q, s) == Outcome(steps, false, []);
        break;
      }
      NodesDrop(q, stack);
      var cur := stack[|stack| - 1];
      stack := stack[..|stack| - 1];
      if cur.pos in visited {
        StepSkips(q, s);
        RunContinues(q, s, State(steps, stack, visited, iterations));
        continue;
      }
      steps := MarkCurrent(q, steps, cur.pos);
      if cur.pos == goal {
        pathFound := true;
        finalPath := cur.path;
        StepReaches(q, s);
        break;
      }
      visited := visited + {cur.pos};
      ghost var steps1 := steps;
      ghost var rest := stack;
      ghost var ns := Neighbors(DfsDirections, cur.pos, q.grid, q.rows, q.cols);
      steps, stack := ExpandCell(q, steps, cur, visited, stack);
      StepExpands(q, s, cur, rest);
      ExpandedParts(q, s, cur, rest, steps1, ns, stack, steps);
      RunContinues(q, s, State(steps, stack, visited, iterations));
    }
    assert Run(q, Init(q)) == Outcome(steps, pathFound, finalPath);

    if pathFound && |finalPath| > 0 {
      ShapedWithin(q, Last(steps), finalPath);
      steps := DrawPath(steps, finalPath);
    }
    r := PathResult(steps, pathFound);
  }
}
