/** `computeBFSSteps` of app/utils/PathingAlgorithms.tsx: breadth-first
    search with a queue of `[position, path]` entries, marking a cell visited
    when it is enqueued, and recording a snapshot per change. */
module BreadthFirst {
  import opened Grids
  import opened Neighbours
  import opened Searches

  /** The loop state: `steps`, `queue` and `visited`. */
  datatype State = State(steps: seq<Grid>, queue: seq<Node>, visited: set<Pos>)

  /** One pass of the `while` loop ends in the next state or leaves the loop. */
  datatype Next = Continue(s: State) | Done(o: Outcome)

  /** What the scan of the four directions updates: the queue and the
      visited set. */
  datatype Scan = Scan(queue: seq<Node>, visited: set<Pos>)

  predicate Ready(q: Search, s: State) {
    |s.steps| > 0 && Shaped(Last(s.steps), q.rows, q.cols) && NodesInside(q, s.queue)
  }

  /** The loop makes progress: more cells visited, or as many and a shorter queue. */
  predicate Fewer(q: Search, s: State, s': State) {
    AllCells(q) - s'.visited < AllCells(q) - s.visited ||
    (s'.visited == s.visited && |s'.queue| < |s.queue|)
  }

  /** One turn of the `for` loop: a neighbour `n` inside the board, not
      visited and not a wall (in the grid as passed in) is enqueued with the
      path extended by it and marked visited at once. */
  function Visit(q: Search, cur: Node, n: Pos, w: Scan): (r: Scan)
    ensures w.visited <= r.visited && r.visited <= w.visited + {n}
    ensures r.visited == w.visited ==> r.queue == w.queue
    ensures r.visited != w.visited ==>
              Passable(q.grid, q.rows, q.cols, n) && n !in w.visited && r.queue == w.queue + [Node(n, cur.path + [n])]
  {
    if Passable(q.grid, q.rows, q.cols, n) && n !in w.visited
    then Scan(w.queue + [Node(n, cur.path + [n])], w.visited + {n})
    else w
  }

  /** The `for` loop over the directions up, right, down, left from entry `k` on. */
  function Enqueue(q: Search, cur: Node, k: nat, w: Scan): (r: Scan)
    ensures w.visited <= r.visited
    ensures forall x :: x in r.visited && x !in w.visited ==> InBounds(x, q.rows, q.cols)
    ensures r.visited == w.visited ==> r.queue == w.queue
    ensures |r.queue| >= |w.queue| && r.queue[..|w.queue|] == w.queue
    decreases |SweepDirections| - k
  {
    if k >= |SweepDirections| then w
    else
      var n := Move(cur.pos, SweepDirections[k]);
      var w' := Visit(q, cur, n, w);
      var r := Enqueue(q, cur, k + 1, w');
      assert r.queue[..|w.queue|] == r.queue[..|w'.queue|][..|w.queue|];
      r
  }

  /** Every entry the scan adds is an unvisited passable neighbour, now
      visited, carrying the path extended by it. */
  lemma {:induction false} EnqueueMembers(q: Search, cur: Node, k: nat, w: Scan)
    ensures var r := Enqueue(q, cur, k, w);
            forall e :: e in r.queue ==>
              (e in w.queue ||
               (e.pos !in w.visited && e.pos in r.visited && Adjacent(cur.pos, e.pos) &&
                Passable(q.grid, q.rows, q.cols, e.pos) && e.path == cur.path + [e.pos]))
    decreases |SweepDirections| - k
  {
    if k < |SweepDirections| {
      var n := Move(cur.pos, SweepDirections[k]);
      var w' := Visit(q, cur, n, w);
      EnqueueMembers(q, cur, k + 1, w');
    }
  }

  /** A passable neighbour `n` is visited after the scan `w` to `r`, and
      enqueued with the path extended by it when it was not visited before. */
  ghost predicate Reached(q: Search, cur: Node, w: Scan, r: Scan, n: Pos) {
    Passable(q.grid, q.rows, q.cols, n) ==>
      n in r.visited && (n !in w.visited ==> Node(n, cur.path + [n]) in r.queue)
  }

  /** Every passable neighbour from entry `k` of the table on is reached by the scan. */
  lemma {:induction false} EnqueueComplete(q: Search, cur: Node, k: nat, w: Scan) returns (r: Scan)
    requires k <= |SweepDirections|
    ensures r == Enqueue(q, cur, k, w)
    ensures forall j :: k <= j < |SweepDirections| ==> Reached(q, cur, w, r, Move(cur.pos, SweepDirections[j]))
    decreases |SweepDirections| - k
  {
    if k < |SweepDirections| {
      var n := Move(cur.pos, SweepDirections[k]);
      var w' := Visit(q, cur, n, w);
      r := EnqueueComplete(q, cur, k + 1, w');
      ReachedHere(q, cur, n, w, w', r);
      forall j | k < j < |SweepDirections|
        ensures Reached(q, cur, w, r, Move(cur.pos, SweepDirections[j]))
      {
        assert SweepDirections[j] != SweepDirections[k];
        ReachedLater(q, cur, n, w, w', r, Move(cur.pos, SweepDirections[j]));
      }
    } else {
      r := w;
    }
  }

  /** The neighbour a turn visits is reached by the rest of the scan. */
  lemma {:induction false} ReachedHere(q: Search, cur: Node, n: Pos, w: Scan, w': Scan, r: Scan)
    requires w' == Visit(q, cur, n, w) && w'.visited <= r.visited
    requires |r.queue| >= |w'.queue| && r.queue[..|w'.queue|] == w'.queue
    ensures Reached(q, cur, w, r, n)
  {
    if Passable(q.grid, q.rows, q.cols, n) && n !in w.visited {
      KeptInFront(w'.queue, r.queue, Node(n, cur.path + [n]));
    }
  }

  /** A later neighbour reached by the rest of the scan is reached by the whole scan. */
  lemma {:induction false} ReachedLater(q: Search, cur: Node, n: Pos, w: Scan, w': Scan, r: Scan, m: Pos)
    requires w' == Visit(q, cur, n, w) && m != n && Reached(q, cur, w', r, m)
    ensures Reached(q, cur, w, r, m)
  {
  }

  lemma {:induction false} KeptInFront(a: seq<Node>, b: seq<Node>, x: Node)
    requires |b| >= |a| && b[..|a|] == a && |a| > 0 && a[|a| - 1] == x
    ensures x in b
  {
    assert b[|a| - 1] == x;
  }

  /** Each position is in the queue at most once. */
  predicate OnceEach(queue: seq<Node>) {
    forall i, j :: 0 <= i < j < |queue| ==> queue[i].pos != queue[j].pos
  }

  /** "Mark as visited to avoid re-enqueueing": no position is queued twice,
      and every queued position is already visited. */
  predicate Books(queue: seq<Node>, visited: set<Pos>) {
    OnceEach(queue) && forall e :: e in queue ==> e.pos in visited
  }

  lemma {:induction false} BooksPush(queue: seq<Node>, visited: set<Pos>, x: Node)
    requires Books(queue, visited) && x.pos !in visited
    ensures Books(queue + [x], visited + {x.pos})
  {
    forall i, j | 0 <= i < j < |queue + [x]| ensures (queue + [x])[i].pos != (queue + [x])[j].pos {
      if j == |queue| {
        assert queue[i] in queue;
      }
    }
  }

  lemma {:induction false} EnqueueBooks(q: Search, cur: Node, k: nat, w: Scan)
    requires Books(w.queue, w.visited)
    ensures var r := Enqueue(q, cur, k, w); Books(r.queue, r.visited)
    decreases |SweepDirections| - k
  {
    if k < |SweepDirections| {
      var n := Move(cur.pos, SweepDirections[k]);
      if Passable(q.grid, q.rows, q.cols, n) && n !in w.visited {
        BooksPush(w.queue, w.visited, Node(n, cur.path + [n]));
      }
      var w' := Visit(q, cur, n, w);
      EnqueueBooks(q, cur, k + 1, w');
    }
  }

  lemma {:induction false} EnqueueInside(q: Search, cur: Node, w: Scan)
    requires InBounds(cur.pos, q.rows, q.cols) && AllIn(q, cur.path) && NodesInside(q, w.queue)
    ensures NodesInside(q, Enqueue(q, cur, 0, w).queue)
  {
    EnqueueMembers(q, cur, 0, w);
  }

  /** "Skip if already visited": the popped cell is visited and the last
      snapshot shows it visited or current. */
  predicate Skipped(q: Search, s: State, p: Pos)
    requires Ready(q, s) && InBounds(p, q.rows, q.cols)
  {
    p in s.visited && (At(Last(s.steps), p) == Visited || At(Last(s.steps), p) == Current)
  }

  /** One pass of the search loop. */
  function Step(q: Search, s: State): (r: Next)
    requires Valid(q) && Ready(q, s)
    ensures r.Continue? ==> Ready(q, r.s) && Fewer(q, s, r.s)
    ensures r.Done? ==> |r.o.steps| > 0 && Shaped(Last(r.o.steps), q.rows, q.cols) && AllIn(q, r.o.path)
  {
    if |s.queue| == 0 then Done(Outcome(s.steps, false, []))
    else
      NodesDrop(q, s.queue);
      Dequeued(q, s, s.queue[0], s.queue[1..])
  }

  /** The pass once `cur` is taken off the front of the queue, leaving `rest`. */
  function Dequeued(q: Search, s: State, cur: Node, rest: seq<Node>): (r: Next)
    requires Valid(q) && Ready(q, s) && |rest| < |s.queue| && NodesInside(q, rest)
    requires InBounds(cur.pos, q.rows, q.cols) && AllIn(q, cur.path)
    ensures r.Continue? ==> Ready(q, r.s) && Fewer(q, s, r.s)
    ensures r.Done? ==> |r.o.steps| > 0 && Shaped(Last(r.o.steps), q.rows, q.cols) && AllIn(q, r.o.path)
  {
    if Skipped(q, s, cur.pos) then Continue(s.(queue := rest))
    else
      var steps1 := Mark(s.steps, cur.pos, Current);
      MarkShaped(q, s.steps, cur.pos, Current);
      if cur.pos == q.goal then Done(Outcome(steps1, true, cur.path))
      else Continue(Expanded(q, s, cur, rest))
  }

  /** The state after `cur` is expanded: marked current and visited, its
      neighbours scanned, then the "visited" and frontier snapshots. */
  function Expanded(q: Search, s: State, cur: Node, rest: seq<Node>): (s': State)
    requires Valid(q) && Ready(q, s) && |rest| < |s.queue| && NodesInside(q, rest)
    requires InBounds(cur.pos, q.rows, q.cols) && AllIn(q, cur.path)
    ensures Ready(q, s') && Fewer(q, s, s')
  {
    var steps1 := Mark(s.steps, cur.pos, Current);
    MarkShaped(q, s.steps, cur.pos, Current);
    var w := Enqueue(q, cur, 0, Scan(rest, s.visited + {cur.pos}));
    EnqueueInside(q, cur, Scan(rest, s.visited + {cur.pos}));
    NodesInsidePositions(q, w.queue);
    Shrinks(q, s.visited, w.visited);
    State(Expand(q, steps1, cur.pos, NodePositions(w.queue)), w.queue, w.visited)
  }

  /** The search loop from state `s` until the queue runs dry or the goal is
      reached. */
  function Run(q: Search, s: State): (o: Outcome)
    requires Valid(q) && Ready(q, s)
    ensures |o.steps| > 0 && Shaped(Last(o.steps), q.rows, q.cols) && AllIn(q, o.path)
    decreases AllCells(q) - s.visited, |s.queue|
  {
    match Step(q, s)
    case Continue(s') => Run(q, s')
    case Done(o) => o
  }

  /** The state before the loop: the grid copy and the first frontier snapshot,
      the start queued and visited. */
  function Init(q: Search): (s: State)
    requires Valid(q)
    ensures Ready(q, s)
  {
    State([q.grid, FrontierOf(q.grid, [q.start])], [Node(q.start, [q.start])], {q.start})
  }

  /** `computeBFSSteps(grid, start, goal, rows, cols)`. */
  function Trace(q: Search): PathResult
    requires Valid(q)
  {
    var o := Run(q, Init(q));
    ShapedWithin(q, Last(o.steps), o.path);
    PathResult(Finish(o), o.found)
  }

  // ------------------------------------------------------------ soundness

  ghost predicate Inv(q: Search, s: State) {
    Valid(q) && Ready(q, s) && Opens(q, s.steps) && AllKept(q, s.steps) && NodesWalk(q, s.queue)
  }

  lemma {:induction false} EnqueueWalks(q: Search, cur: Node, w: Scan)
    requires NodesWalk(q, w.queue) && Walk(q, cur.path, cur.pos)
    ensures NodesWalk(q, Enqueue(q, cur, 0, w).queue)
  {
    EnqueueMembers(q, cur, 0, w);
    forall e | e in Enqueue(q, cur, 0, w).queue ensures Walk(q, e.path, e.pos) {
      if e !in w.queue {
        WalkExtend(q, cur.path, cur.pos, e.pos);
      }
    }
  }

  lemma {:induction false} StepSound(q: Search, s: State)
    requires Inv(q, s)
    ensures match Step(q, s)
            case Continue(s') => Inv(q, s')
            case Done(o) => Sound(q, o)
  {
    if |s.queue| > 0 {
      NodesDrop(q, s.queue);
      var cur := s.queue[0];
      var rest := s.queue[1..];
      if !Skipped(q, s, cur.pos) {
        assert Walk(q, cur.path, cur.pos);
        WalkPaintable(q, cur.path, cur.pos);
        assert Paintable(q, cur.path[|cur.path| - 1]);
        var steps1 := Mark(s.steps, cur.pos, Current);
        KeptMark(q, s.steps, cur.pos, Current);
        assert steps1[..|s.steps|] == s.steps;
        OpensExtend(q, s.steps, steps1);
        if cur.pos != q.goal {
          var w := Enqueue(q, cur, 0, Scan(rest, s.visited + {cur.pos}));
          EnqueueWalks(q, cur, Scan(rest, s.visited + {cur.pos}));
          NodesWalkInside(q, w.queue);
          ExpandKept(q, s.steps, cur.pos, NodePositions(w.queue));
          ExpandExpansion(q, s.steps, cur.pos, NodePositions(w.queue));
          OpensExtend(q, s.steps, Expand(q, steps1, cur.pos, NodePositions(w.queue)));
        }
      }
    }
  }

  lemma {:induction false} RunSound(q: Search, s: State)
    requires Inv(q, s)
    ensures Sound(q, Run(q, s))
    decreases AllCells(q) - s.visited, |s.queue|
  {
    StepSound(q, s);
    match Step(q, s)
    case Continue(s') => RunSound(q, s');
    case Done(o) =>
  }

  lemma {:induction false} InitSound(q: Search)
    requires Valid(q)
    ensures Inv(q, Init(q))
  {
    KeptGrid(q);
    KeptFrontier(q, q.grid, [q.start]);
    KeptAppend(q, [q.grid], FrontierOf(q.grid, [q.start]));
    WalkStart(q);
  }

  /** The trace opens with the grid and the start's frontier, never repaints
      start, goal or a wall, reports a path exactly when the search found a
      walk from start to goal, and then adds one path snapshot per interior
      cell of that walk; without a path nothing is added. */
  lemma {:induction false} TraceSound(q: Search)
    requires Valid(q)
    ensures var o := Run(q, Init(q)); var r := Trace(q);
            Opens(q, r.steps) && AllKept(q, r.steps) && r.pathFound == o.found &&
            (o.found ==> Walk(q, o.path, q.goal) &&
                         |r.steps| == |o.steps| + (if |o.path| >= 2 then |o.path| - 2 else 0)) &&
            (!o.found ==> r.steps == o.steps)
  {
    InitSound(q);
    RunSound(q, Init(q));
    FinishSound(q, Run(q, Init(q)));
  }

  // ------------------------------------------------------------ the queue

  /** A pass that does not leave either drops a skipped entry or expands the
      dequeued cell by the scan of its neighbours. */
  lemma {:induction false} StepShape(q: Search, s: State)
    requires Valid(q) && Ready(q, s)
    ensures Step(q, s).Continue? ==>
              |s.queue| > 0 && InBounds(s.queue[0].pos, q.rows, q.cols) &&
              var s' := Step(q, s).s;
              (Skipped(q, s, s.queue[0].pos) ==> s' == s.(queue := s.queue[1..])) &&
              (!Skipped(q, s, s.queue[0].pos) ==>
                 Scan(s'.queue, s'.visited) == Enqueue(q, s.queue[0], 0, Scan(s.queue[1..], s.visited + {s.queue[0].pos})))
  {
    if |s.queue| > 0 {
      NodesDrop(q, s.queue);
    }
  }

  /** Each pass keeps every position in the queue at most once, and visited. */
  lemma {:induction false} StepBooks(q: Search, s: State)
    requires Valid(q) && Ready(q, s) && Books(s.queue, s.visited)
    ensures Step(q, s).Continue? ==> Books(Step(q, s).s.queue, Step(q, s).s.visited)
  {
    StepShape(q, s);
    if |s.queue| > 0 {
      var rest := s.queue[1..];
      NodesDrop(q, s.queue);
      assert OnceEach(rest) by {
        forall i, j | 0 <= i < j < |rest| ensures rest[i].pos != rest[j].pos {
          assert rest[i] == s.queue[i + 1] && rest[j] == s.queue[j + 1];
        }
      }
      EnqueueBooks(q, s.queue[0], 0, Scan(rest, s.visited + {s.queue[0].pos}));
    }
  }

  lemma {:induction false} InitBooks(q: Search)
    requires Valid(q)
    ensures Books(Init(q).queue, Init(q).visited)
  {
  }

  /** The snapshots one pass adds: none when the dequeued cell is skipped, the
      "current" snapshot alone when it is the goal, and otherwise a whole
      expansion ending with the frontier of the new queue. The old queue
      stays in front of the new entries. */
  lemma {:induction false} StepExpansion(q: Search, s: State)
    requires Valid(q) && Ready(q, s) && |s.queue| > 0
    ensures var p := s.queue[0];
            Within(Last(s.steps), p.pos) &&
            match Step(q, s)
            case Continue(s') =>
              (Skipped(q, s, p.pos) && s' == s.(queue := s.queue[1..])) ||
              (!Skipped(q, s, p.pos) && p.pos != q.goal &&
               |s'.queue| >= |s.queue| - 1 && s'.queue[..|s.queue| - 1] == s.queue[1..] &&
               Expansion(s.steps, s'.steps, p.pos, NodePositions(s'.queue)))
            case Done(o) =>
              !Skipped(q, s, p.pos) && p.pos == q.goal && o.found && o.path == p.path &&
              o.steps == Mark(s.steps, p.pos, Current)
  {
    NodesDrop(q, s.queue);
    var cur := s.queue[0];
    var rest := s.queue[1..];
    if !Skipped(q, s, cur.pos) && cur.pos != q.goal {
      var w := Enqueue(q, cur, 0, Scan(rest, s.visited + {cur.pos}));
      EnqueueInside(q, cur, Scan(rest, s.visited + {cur.pos}));
      NodesInsidePositions(q, w.queue);
      ExpandExpansion(q, s.steps, cur.pos, NodePositions(w.queue));
    }
  }

  /** Every passable neighbour of an expanded cell that was not visited before
      is enqueued with the path extended by it; every passable neighbour is
      visited afterwards; nothing else is enqueued. */
  lemma {:induction false} StepEnqueues(q: Search, s: State)
    requires Valid(q) && Ready(q, s) && |s.queue| > 0
    ensures var p := s.queue[0];
            match Step(q, s)
            case Continue(s') =>
              !Skipped(q, s, p.pos) ==>
                (forall n :: Adjacent(p.pos, n) && Passable(q.grid, q.rows, q.cols, n) ==>
                   n in s'.visited && (n !in s.visited && n != p.pos ==> Node(n, p.path + [n]) in s'.queue)) &&
                (forall e :: e in s'.queue ==>
                   (e in s.queue[1..] ||
                    (e.pos !in s.visited && e.pos != p.pos && Adjacent(p.pos, e.pos) && e.path == p.path + [e.pos])))
            case Done(_) => true
  {
    StepShape(q, s);
    if |s.queue| > 0 && !Skipped(q, s, s.queue[0].pos) && s.queue[0].pos != q.goal {
      ScanEnqueues(q, s.queue[0], s.queue[1..], s.visited + {s.queue[0].pos});
    }
  }

  /** The scan of `cur`'s neighbours over queue `rest` and visited set `visited`. */
  lemma {:induction false} ScanEnqueues(q: Search, cur: Node, rest: seq<Node>, visited: set<Pos>)
    ensures var r := Enqueue(q, cur, 0, Scan(rest, visited));
            (forall n :: Adjacent(cur.pos, n) && Passable(q.grid, q.rows, q.cols, n) ==>
               n in r.visited && (n !in visited ==> Node(n, cur.path + [n]) in r.queue)) &&
            (forall e :: e in r.queue ==>
               (e in rest || (e.pos !in visited && Adjacent(cur.pos, e.pos) && e.path == cur.path + [e.pos])))
  {
    var w := Scan(rest, visited);
    var r := EnqueueComplete(q, cur, 0, w);
    EnqueueMembers(q, cur, 0, w);
    forall n | Adjacent(cur.pos, n) && Passable(q.grid, q.rows, q.cols, n)
      ensures n in r.visited && (n !in visited ==> Node(n, cur.path + [n]) in r.queue)
    {
      var j := SweepIndex(cur.pos, n);
      assert Reached(q, cur, w, r, Move(cur.pos, SweepDirections[j]));
    }
  }

  /** Every neighbour is one of the four moves of the scan. */
  lemma {:induction false} SweepIndex(p: Pos, n: Pos) returns (j: nat)
    requires Adjacent(p, n)
    ensures j < |SweepDirections| && Move(p, SweepDirections[j]) == n
  {
    var d := Pos(n.row - p.row, n.col - p.col);
    assert Move(p, d) == n;
    if d == Pos(-1, 0) {
      j := 0;
    } else if d == Pos(0, 1) {
      j := 1;
    } else if d == Pos(1, 0) {
      j := 2;
    } else {
      j := 3;
    }
  }

  /** When start and goal coincide (on a start or goal cell) the trace is the
      grid and the first frontier snapshot, and a path is reported. */
  lemma {:induction false} StartIsGoal(q: Search)
    requires Valid(q) && q.start == q.goal && Fixed(At(q.grid, q.start))
    ensures Trace(q) == PathResult([q.grid, FrontierOf(q.grid, [q.start])], true)
  {
    var s := Init(q);
    StepExpansion(q, s);
    FrontierCells(q.grid, [q.start], q.start);
    assert Fixed(At(Last(s.steps), q.start));
    var next := Step(q, s);
    assert next.Done? && next.o == Outcome(s.steps, true, [q.start]);
    assert Run(q, s) == next.o;
  }

  // ------------------------------------------------------------ the imperative engine

  lemma {:induction false} RunContinues(q: Search, s: State, s': State)
    requires Valid(q) && Ready(q, s) && Step(q, s) == Continue(s')
    ensures Ready(q, s') && Fewer(q, s, s') && Run(q, s) == Run(q, s')
  {
  }

  lemma {:induction false} StepSkips(q: Search, s: State)
    requires Valid(q) && Ready(q, s) && |s.queue| > 0
    requires InBounds(s.queue[0].pos, q.rows, q.cols) && Skipped(q, s, s.queue[0].pos)
    ensures Step(q, s) == Continue(s.(queue := s.queue[1..]))
  {
  }

  lemma {:induction false} StepReaches(q: Search, s: State)
    requires Valid(q) && Ready(q, s) && |s.queue| > 0
    requires var p := s.queue[0];
             InBounds(p.pos, q.rows, q.cols) && !Skipped(q, s, p.pos) && p.pos == q.goal
    ensures var p := s.queue[0];
            Step(q, s) == Done(Outcome(Mark(s.steps, p.pos, Current), true, p.path))
  {
  }

  /** A pass that expands a cell other than the goal. */
  lemma {:induction false} StepExpands(q: Search, s: State, cur: Node, rest: seq<Node>)
    requires Valid(q) && Ready(q, s) && |s.queue| > 0
    requires cur == s.queue[0] && rest == s.queue[1..] && NodesInside(q, rest)
    requires InBounds(cur.pos, q.rows, q.cols) && AllIn(q, cur.path)
    requires !Skipped(q, s, cur.pos) && cur.pos != q.goal
    ensures Step(q, s) == Continue(Expanded(q, s, cur, rest))
  {
  }

  /** The expanded state, from its parts as the loop computes them. */
  lemma {:induction false} ExpandedParts(q: Search, s: State, cur: Node, rest: seq<Node>,
                      steps1: seq<Grid>, w: Scan, steps': seq<Grid>)
    requires Valid(q) && Ready(q, s) && |rest| < |s.queue| && NodesInside(q, rest)
    requires InBounds(cur.pos, q.rows, q.cols) && AllIn(q, cur.path)
    requires steps1 == Mark(s.steps, cur.pos, Current) && Shaped(Last(steps1), q.rows, q.cols)
    requires w == Enqueue(q, cur, 0, Scan(rest, s.visited + {cur.pos}))
    requires AllIn(q, NodePositions(w.queue)) && steps' == Expand(q, steps1, cur.pos, NodePositions(w.queue))
    ensures Expanded(q, s, cur, rest) == State(steps', w.queue, w.visited)
  {
  }

  /** The `for` loop over the directions. */
  method EnqueueNeighbors(q: Search, cur: Node, queue: seq<Node>, visited: set<Pos>)
    returns (queue': seq<Node>, visited': set<Pos>)
    requires Valid(q)
    ensures Scan(queue', visited') == Enqueue(q, cur, 0, Scan(queue, visited))
  {
    queue', visited' := queue, visited;
    for k := 0 to |SweepDirections|
      invariant Enqueue(q, cur, k, Scan(queue', visited')) == Enqueue(q, cur, 0, Scan(queue, visited))
    {
      var n := Move(cur.pos, SweepDirections[k]);
      if 0 <= n.row < q.rows && 0 <= n.col < q.cols && n !in visited' && At(q.grid, n) != Wall {
        queue' := queue' + [Node(n, cur.path + [n])];
        visited' := visited' + {n};
      }
    }
  }

  /** The rest of an expansion once `cur` is visited: the "visited" snapshot,
      the scan of the directions and the frontier snapshot. */
  method ExpandCell(q: Search, steps: seq<Grid>, cur: Node, queue: seq<Node>, visited: set<Pos>)
    returns (steps': seq<Grid>, queue': seq<Node>, visited': set<Pos>)
    requires Valid(q) && |steps| > 0 && Shaped(Last(steps), q.rows, q.cols)
    requires InBounds(cur.pos, q.rows, q.cols) && AllIn(q, cur.path) && NodesInside(q, queue)
    ensures Scan(queue', visited') == Enqueue(q, cur, 0, Scan(queue, visited))
    ensures AllIn(q, NodePositions(queue')) && steps' == Expand(q, steps, cur.pos, NodePositions(queue'))
  {
    steps' := steps;
    var visitedGrid := Last(steps');
    if At(visitedGrid, cur.pos) != Start && At(visitedGrid, cur.pos) != Goal {
      visitedGrid := Paint(visitedGrid, cur.pos, Visited);
      steps' := steps' + [visitedGrid];
    }
    queue', visited' := EnqueueNeighbors(q, cur, queue, visited);
    EnqueueInside(q, cur, Scan(queue, visited));
    NodesInsidePositions(q, queue');
    MarkShaped(q, steps, cur.pos, Visited);
    ShapedWithin(q, Last(steps'), NodePositions(queue'));
    var frontier := MarkFrontier(Last(steps'), NodePositions(queue'));
    steps' := steps' + [frontier];
  }

  /** `computeBFSSteps`, step by step as the source runs it. */
  method ComputeBFSSteps(grid: Grid, start: Pos, goal: Pos, rows: int, cols: int) returns (r: PathResult)
    requires Valid(Search(grid, start, goal, rows, cols))
    ensures r == Trace(Search(grid, start, goal, rows, cols))
  {
    var q := Search(grid, start, goal, rows, cols);
    var steps := [grid];
    var queue := [Node(start, [start])];
    var visited: set<Pos> := {start};
    var pathFound := false;
    var finalPath: seq<Pos> := [];
    var frontier := MarkFrontier(grid, NodePositions(queue));
    steps := steps + [frontier];
    assert NodePositions(queue) == [start];
    assert State(steps, queue, visited) == Init(q);

    while |queue| > 0
      invariant Ready(q, State(steps, queue, visited))
      invariant Run(q, State(steps, queue, visited)) == Run(q, Init(q))
      invariant !pathFound && finalPath == []
      decreases AllCells(q) - visited, |queue|
    {
      ghost var s := State(steps, queue, visited);
      NodesDrop(q, queue);
      var cur := queue[0];
      queue := queue[1..];
      if cur.pos in visited && (At(Last(steps), cur.pos) == Visited || At(Last(steps), cur.pos) == Current) {
        StepSkips(q, s);
        RunContinues(q, s, State(steps, queue, visited));
        continue;
      }
      steps := MarkCurrent(q, steps, cur.pos);
      if cur.pos == goal {
        pathFound := true;
        finalPath := cur.path;
        StepReaches(q, s);
        break;
      }
      visited := visited + {cur.pos};
      ghost var steps1 := steps;
      ghost var rest := queue;
      steps, queue, visited := ExpandCell(q, steps, cur, queue, visited);
      StepExpands(q, s, cur, rest);
      ExpandedParts(q, s, cur, rest, steps1, Scan(queue, visited), steps);
      RunContinues(q, s, State(steps, queue, visited));
    }
    assert Run(q, Init(q)) == Outcome(steps, pathFound, finalPath);

    if pathFound && |finalPath| > 0 {
      ShapedWithin(q, Last(steps), finalPath);
      steps := DrawPath(steps, finalPath);
    }
    r := PathResult(steps, pathFound);
  }
}
