# Sorting and path-finding trace engines

A Dafny model of the two step-recording engines of a visualiser web app.

- **Sort trace engine.** `app/utils/SortingAlgorithms.tsx` and its compiled twin `app/utils/SortingAlgorithms.js` have the same logic.
  - Each of bubble sort, selection sort, insertion sort and Lomuto quicksort copies its input into a fresh array and sorts the copy in place.
  - After every comparison, swap or shift, it pushes onto four parallel lists of a `SortResult`: a snapshot of the array, the highlighted indices, a description and the indices shown as sorted.
- **Grid search trace engine.** `app/utils/PathingAlgorithms.tsx` runs A*, depth-first, breadth-first and greedy best-first search over a 4-connected grid of cells.
  - The cells are `empty`, `wall`, `start`, `goal`, `path`, `visited`, `current` and `frontier`.
  - It records a grid snapshot for every change: the "current", "visited" and frontier snapshots of each expansion.
  - When the goal is reached it adds one "path" snapshot per interior cell of the path the search carried along.
  - `reconstructPathSteps`, which draws a path from a `cameFrom` map, is modelled as well.

Layout, one module per file:

| file | module | contents |
|---|---|---|
| `sort_order.dfy` | `SortOrder` | the ascending reference sort and its uniqueness |
| `sort_trace.dfy` | `SortTrace` | the `SortResult` lists and the description datatype |
| `bubble_sort.dfy`, `selection_sort.dfy`, `insertion_sort.dfy`, `quick_sort.dfy` | one per algorithm | the four sorts |
| `grid.dfy` | `Grids` | cells, grids, painting, frontier and path snapshots |
| `neighbours.dfy` | `Neighbours` | the direction tables and neighbour scans |
| `search.dfy` | `Searches` | walks, kept snapshots, expansions and the path loop |
| `open_list.dfy` | `OpenLists` | the fScore-sorted open list |
| `a_star.dfy`, `dfs.dfy`, `bfs.dfy`, `greedy.dfy` | one per algorithm | the four searches |
| `reconstruct.dfy` | `PathReconstruction` | `reconstructPathSteps` |

Each traced algorithm is a method that works as the source does:
- the sorts run on an `array<int>` copy;
- the searches run `while` loops over an open list, a stack or a queue, a visited or closed set and a gScore map.

Each method is proved equal to a recursive function that describes the same run one loop turn at a time. The properties are lemmas about those functions.

## Model

| member | source | states |
|---|---|---|
| SortOrder.SortedPermutationIsAscending | app/utils/SortingAlgorithms.tsx:35-38 | any ascending permutation of the input is the reference ascending sort, so "the last snapshot is sorted and a permutation" pins it down exactly |
| SortOrder.FirstMinUnique | app/utils/SortingAlgorithms.tsx:60-62 | the first position of the minimum, which a strict `<` scan finds, is unique |
| SortOrder.SwapPermutes | app/utils/SortingAlgorithms.tsx:20 | a destructuring swap keeps the multiset of values |
| SortTrace.MarksSettleAtClose | app/utils/SortingAlgorithms.tsx:35-38 | once the working array is final, entries whose sorted marks agree with it are settled, and so is the closing entry that marks every index |
| BubbleSort.ComputeBubbleSortSteps | app/utils/SortingAlgorithms.tsx:10-41 | the in-place run on the array copy returns exactly the trace `BubbleSortTrace(input)`; the compiled twin `SortingAlgorithms.js` lines 14-42 runs the same loops |
| BubbleSort.BubbleSortEnds | app/utils/SortingAlgorithms.tsx:11-38 | entry 0 is the input with `[]`, "Initial array" and `[]`; the last entry is the ascending sort with `[]`, "Array fully sorted" and every index; all four lists have length `2 + n(n-1)/2` |
| BubbleSort.BubbleSortSchedule | app/utils/SortingAlgorithms.tsx:17-31 | the highlights are `[j, j+1]` for every comparison in loop order, and the sorted marks during pass `i` are the last `i` indices |
| BubbleSort.BubbleScheduleAt | app/utils/SortingAlgorithms.tsx:17-31 | comparison `j` of pass `i` sits at entry `C(n, i) + j` and carries highlight `[j, j+1]` and the last `i` indices as sorted |
| BubbleSort.BubbleComparisonsClosed | app/utils/SortingAlgorithms.tsx:17-18 | passes `0 .. i-1` on `n` elements make `i(2n-1-i)/2` comparisons |
| BubbleSort.BubbleSortMoves | app/utils/SortingAlgorithms.tsx:19-30 | every snapshot is a permutation of the input, and each inner entry compares the highlighted adjacent pair of the previous snapshot and swaps it exactly when the left value is strictly greater |
| BubbleSort.BubbleSortSettled | app/utils/SortingAlgorithms.tsx:28-30 | every index listed as sorted already holds its final value |
| BubbleSort.BubbleCompareFacts | app/utils/SortingAlgorithms.tsx:19-20 | one comparison permutes the array and leaves the larger value of the pair on the right |
| BubbleSort.BubbleArraySorts | app/utils/SortingAlgorithms.tsx:17-32 | from a state satisfying the pass invariant (sorted suffix no smaller than the rest), the remaining comparisons leave the array ascending |
| BubbleSort.BubbleArrayPermutes | app/utils/SortingAlgorithms.tsx:17-32 | the comparisons only move values around |
| SelectionSort.ComputeSelectionSortSteps | app/utils/SortingAlgorithms.tsx:44-80 | the in-place run returns exactly `SelectionSortTrace(input)`; the compiled twin `SortingAlgorithms.js` lines 45-76 runs the same loops |
| SelectionSort.SelectionSortEnds | app/utils/SortingAlgorithms.tsx:45-77 | opens with the input and closes with its ascending sort; the lists stay parallel; the length lies between `2 + n(n-1)/2` and that plus `n-1` swaps |
| SelectionSort.SelectionSortSchedule | app/utils/SortingAlgorithms.tsx:54-58 | the comparison entries name exactly the pairs `(i, j)`, `i < j < n`, in loop order |
| SelectionSort.AllPairsExactly | app/utils/SortingAlgorithms.tsx:51-54 | the two loops compare `n(n-1)/2` pairs, and `(x, y)` is among them exactly when `0 <= x < y < n` |
| SelectionSort.PairsCount | app/utils/SortingAlgorithms.tsx:51-54 | before comparison `(i, j)`, `i(2n-1-i)/2 + (j-i-1)` pairs have been compared |
| SelectionSort.SelectionSortMoves | app/utils/SortingAlgorithms.tsx:54-71 | every snapshot is a permutation of the input; each inner entry is a comparison (array unchanged, `[0, i)` sorted) or the swap of the first minimum of `a[i..]` into `i` (`[0, i]` sorted); a pass ends with a swap exactly when its first minimum is not already at `i` |
| SelectionSort.SelectionSortSettled | app/utils/SortingAlgorithms.tsx:58-70 | every index listed as sorted already holds its final value |
| SelectionSort.FirstMinStep | app/utils/SortingAlgorithms.tsx:60-62 | the strict `<` update keeps `minIndex` the first position of the minimum of what has been compared |
| SelectionSort.SelectionArraySorts | app/utils/SortingAlgorithms.tsx:51-72 | from the pass invariant (sorted prefix no larger than the rest), the rest of the run leaves the array ascending |
| SelectionSort.SelectionArrayPermutes | app/utils/SortingAlgorithms.tsx:65-66 | the swaps only move values around |
| InsertionSort.ComputeInsertionSortSteps | app/utils/SortingAlgorithms.tsx:83-120 | the in-place run returns exactly `InsertionSortTrace(input)`; the compiled twin `SortingAlgorithms.js` lines 79-110 runs the same loops |
| InsertionSort.InsertPass | app/utils/SortingAlgorithms.tsx:90-111 | one outer turn (pick, shift, insert) leaves the trace and the array exactly as `PassEnd` says. The trace only grows, `arr[i+1..]` is untouched, the values are kept, and an ascending `arr[..i]` becomes an ascending `arr[..i+1]` |
| InsertionSort.PassEndFacts | app/utils/SortingAlgorithms.tsx:90-111 | one pass appends to all four lists, leaves `a[i+1..]` unchanged, keeps the multiset of values, and turns an ascending `a[..i]` into an ascending `a[..i+1]` |
| InsertionSort.PassEndRun | app/utils/SortingAlgorithms.tsx:90-112 | the rest of the run from the start of pass `i` is the run from the start of pass `i + 1`, starting where `PassEnd` leaves the trace and the array |
| InsertionSort.InsertionSortEnds | app/utils/SortingAlgorithms.tsx:84-117 | opens with the input and closes with its ascending sort; highlights and sorted marks run parallel to the snapshots, but `descriptions` has one extra entry per pass; each pass adds between 1 and `1 + i` snapshots |
| InsertionSort.InsertionSortMoves | app/utils/SortingAlgorithms.tsx:97-111 | every snapshot keeps the length; each inner entry copies `a[j]` into `j+1` with highlight `[j, j+1]` or writes the key into the gap with highlight `[j+1]`; every insertion snapshot is a permutation of the input |
| InsertionSort.InsertionSortPrefixes | app/utils/SortingAlgorithms.tsx:102-111 | the indices each entry lists as sorted form a prefix that is ascending in its snapshot |
| InsertionSort.InsertionSortShifts | app/utils/SortingAlgorithms.tsx:97-101 | on every input, each shift snapshot with highlight `[j, j + 1]` holds the shifted value in both slots. Writing a smaller key back into slot `j` gives a permutation of the input, so the shift snapshot itself is not one |
| InsertionSort.DuplicateNotPermutation | app/utils/SortingAlgorithms.tsx:98 | a snapshot that becomes a permutation of the input when a different value is written into one slot is not itself a permutation of it |
| InsertionSort.InsertionSortExample | app/utils/SortingAlgorithms.tsx:94-101 | on `[2, 1]` the shift snapshot `[2, 2]` is not a permutation of the input, and description 1 is "Picked element", not the shift's |
| InsertionSort.ShiftKeeps | app/utils/SortingAlgorithms.tsx:97-98 | a shift moves the gap left and keeps the shifted prefix ascending |
| InsertionSort.InsertKeeps | app/utils/SortingAlgorithms.tsx:107 | writing the key into the gap leaves `a[0..i]` ascending |
| InsertionSort.ShiftHolds | app/utils/SortingAlgorithms.tsx:98 | with the key written into the gap, a shift does not change the values held |
| InsertionSort.InsertionArraySorts | app/utils/SortingAlgorithms.tsx:90-112 | from the order invariant, the rest of the run leaves the array ascending |
| InsertionSort.InsertionArrayPermutes | app/utils/SortingAlgorithms.tsx:90-112 | the array the run leaves behind holds the input's values |
| QuickSort.Partition | app/utils/SortingAlgorithms.tsx:124-160 | `partition` on the array and the trace is exactly `Partitioned`, with the returned pivot index; the compiled twin `SortingAlgorithms.js` lines 114-139 runs the same loops |
| QuickSort.PartitionSplits | app/utils/SortingAlgorithms.tsx:133-159 | the pivot `arr[high]` ends at the returned `p`; `[low, p)` holds smaller values and `(p, high]` the others; only `[low, high]` is rearranged |
| QuickSort.PartitionArraySplits | app/utils/SortingAlgorithms.tsx:137-153 | from Lomuto's loop invariant the loop and the pivot move split the range around the pivot |
| QuickSort.PartitionArrayKeeps | app/utils/SortingAlgorithms.tsx:137-153 | the loop and the pivot move only exchange values inside `[low, high]` |
| QuickSort.PartitionCount | app/utils/SortingAlgorithms.tsx:134-157 | a partition appends `high - low` comparisons, one swap per value below the pivot and the pivot entry, and one extra description ("Pivot chosen") |
| QuickSort.QuickSortRecursive | app/utils/SortingAlgorithms.tsx:163-177 | the recursion on the shared array and trace is exactly `QuickSortRun`; the compiled twin `SortingAlgorithms.js` lines 141-147 runs the same loops |
| QuickSort.QuickSortRunArray | app/utils/SortingAlgorithms.tsx:163-177 | the traced recursion moves the array exactly as the trace-free `QuickSortArray` does |
| QuickSort.QuickSortArraySorts | app/utils/SortingAlgorithms.tsx:163-177 | the recursion only rearranges `[low, high]` and leaves it ascending |
| QuickSort.QuickSortWhole | app/utils/SortingAlgorithms.tsx:187 | the recursion over `[0, n-1]` leaves an ascending permutation of the input |
| QuickSort.ComputeQuickSortSteps | app/utils/SortingAlgorithms.tsx:180-195 | the run returns exactly `QuickSortTrace(input)`; the compiled twin `SortingAlgorithms.js` lines 149-161 runs the same loops |
| QuickSort.QuickSortOpens | app/utils/SortingAlgorithms.tsx:181-185 | entry 0 is the input with nothing highlighted or sorted, described "Initial array" |
| QuickSort.QuickSortCloses | app/utils/SortingAlgorithms.tsx:189-192 | the last entry is the ascending sort with `[]`, "Array fully sorted" and every index |
| QuickSort.QuickSortAligned | app/utils/SortingAlgorithms.tsx:134 | highlights and sorted marks run parallel to the snapshots, and so do the descriptions once the "Pivot chosen" entries are set aside |
| QuickSort.QuickSortMarks | app/utils/SortingAlgorithms.tsx:141-157 | every entry but the closing one lists no index as sorted |
| QuickSort.QuickSortMoves | app/utils/SortingAlgorithms.tsx:137-157 | every snapshot is a permutation of the input; each inner entry is a comparison with the pivot (`[j, high]`), a swap after a comparison that found a smaller value (`[i, j]`), or the pivot's move (`[p, high]`); a comparison is followed by a swap exactly when it found a smaller value |
| Neighbours.GetNeighbors | app/utils/PathingAlgorithms.tsx:59-92 | returns the scan of up, down, left, right |
| Neighbours.GetNeighborsInOrder | app/utils/PathingAlgorithms.tsx:24-57 | returns the scan of right, down, left, up |
| Neighbours.CollectNeighbors | app/utils/PathingAlgorithms.tsx:24-57 | the shared loop returns exactly the scan function `Neighbors` |
| Neighbours.NeighborsExactly | app/utils/PathingAlgorithms.tsx:59-92 | the result holds exactly the in-bounds non-wall 4-adjacent cells, each once |
| Neighbours.NeighborsFromOrder | app/utils/PathingAlgorithms.tsx:24-57 | the kept moves appear in table order: a move is kept exactly when its cell is passable |
| Grids.Paint | app/utils/PathingAlgorithms.tsx:257 | one cell is set and every other cell keeps its value |
| Grids.MarkFrontier | app/utils/PathingAlgorithms.tsx:208-225 | the frontier loop on a copy of the last snapshot returns exactly `FrontierOf` |
| Grids.FrontierCells | app/utils/PathingAlgorithms.tsx:212-222 | a cell becomes `frontier` exactly when an open entry names it and it was not start, goal, current or visited; order and repetitions do not matter |
| Grids.DrawPath | app/utils/PathingAlgorithms.tsx:339-354 | the path loop returns exactly `PathRun` |
| Grids.PathRunCells | app/utils/PathingAlgorithms.tsx:341-353 | each path snapshot differs from the one before at most in one interior path cell, which becomes `path` unless it is start or goal; the search snapshots stay in front |
| Searches.WalkExtend | app/utils/PathingAlgorithms.tsx:310 | appending a passable neighbour of its end extends a walk from the start |
| Searches.ExpandExpansion | app/utils/PathingAlgorithms.tsx:249-284 | an expansion adds the "current" snapshot and then the "visited" snapshot, each painting only the expanded cell (both left out for start and goal), and then one frontier snapshot |
| Searches.ExpandKept | app/utils/PathingAlgorithms.tsx:249-335 | an expansion repaints no start, goal or wall cell |
| Searches.MarkCurrent | app/utils/PathingAlgorithms.tsx:249-259 | the step pushes `Mark(steps, p, Current)` and keeps the grid's shape |
| Searches.FinishSound | app/utils/PathingAlgorithms.tsx:339-354 | the path loop keeps the search snapshots in front and adds exactly `|path| - 2` snapshots when a path was found, and nothing otherwise |
| Searches.FinishCells | app/utils/PathingAlgorithms.tsx:341-353 | each path snapshot turns the next interior path cell into `path` unless it is start or goal |
| Searches.Shrinks | app/utils/PathingAlgorithms.tsx:576 | adding board cells to the visited set leaves strictly fewer cells to visit; this is the BFS and Greedy termination measure |
| OpenLists.SortByScorePermutes | app/utils/PathingAlgorithms.tsx:238 | the sort only reorders the open list |
| OpenLists.SortByScoreAscending | app/utils/PathingAlgorithms.tsx:238 | after the sort the scores ascend |
| OpenLists.SortByScoreHead | app/utils/PathingAlgorithms.tsx:238-241 | `shift()` after the stable sort takes the first entry of least score in the list as it stood |
| OpenLists.SortByScoreDistinct | app/utils/PathingAlgorithms.tsx:238 | the sort keeps the positions distinct |
| OpenLists.FindIndexFirst | app/utils/PathingAlgorithms.tsx:313-317 | `findIndex` returns the first entry holding the position, or -1 exactly when none does |
| AStar.ComputeAStarSteps | app/utils/PathingAlgorithms.tsx:176-357 | the method returns exactly `Trace(q, h)` |
| AStar.RelaxNeighbors | app/utils/PathingAlgorithms.tsx:290-332 | the neighbour loop on the open list and gScore map is exactly `RelaxAll` |
| AStar.TraceSound | app/utils/PathingAlgorithms.tsx:176-357 | opens with the grid copy and the start's frontier; repaints no start, goal or wall; reports a path exactly when the search found a walk from start to goal, then adds one snapshot per interior cell; adds nothing without a path |
| AStar.StepBooks | app/utils/PathingAlgorithms.tsx:241-330 | each pass keeps the open list free of duplicate positions and of closed cells and only lowers gScores; the popped cell is never closed |
| AStar.InitBooks | app/utils/PathingAlgorithms.tsx:188-200 | the initial state satisfies that bookkeeping |
| AStar.StepExpansion | app/utils/PathingAlgorithms.tsx:241-335 | a pass adds nothing for a closed cell, only the "current" snapshot at the goal, and otherwise a whole expansion ending with the new open list's frontier |
| AStar.StartIsGoal | app/utils/PathingAlgorithms.tsx:228-269 | when start and goal coincide the trace is the grid and the first frontier snapshot, and a path is reported |
| AStar.Step | app/utils/PathingAlgorithms.tsx:230-235 | past `rows * cols * 2` iterations the loop leaves without a path |
| DepthFirst.ComputeDFSSteps | app/utils/PathingAlgorithms.tsx:360-488 | the method returns exactly `Trace(q)` |
| DepthFirst.PushNeighbors | app/utils/PathingAlgorithms.tsx:456-463 | the reverse loop returns exactly `PushReversed` |
| DepthFirst.TraceSound | app/utils/PathingAlgorithms.tsx:360-488 | the same trace guarantees as for A* |
| DepthFirst.StepExpansion | app/utils/PathingAlgorithms.tsx:411-466 | a pass drops a visited cell, stops at the goal after its "current" snapshot, or expands a cell not visited before and adds it to the visited set |
| DepthFirst.StepStack | app/utils/PathingAlgorithms.tsx:453-463 | an expansion leaves the rest of the stack with the unvisited neighbours pushed in reverse table order |
| DepthFirst.PushMembers | app/utils/PathingAlgorithms.tsx:456-463 | every pushed entry is an unvisited neighbour carrying the current path extended by itself |
| DepthFirst.PushTop | app/utils/PathingAlgorithms.tsx:455-463 | the first unvisited neighbour in right, down, left, up order ends on top, so it is popped first |
| DepthFirst.StartIsGoal | app/utils/PathingAlgorithms.tsx:401-435 | start equal to goal gives two snapshots and a path |
| DepthFirst.Step | app/utils/PathingAlgorithms.tsx:404-409 | past `rows * cols * 2` iterations the loop leaves without a path |
| BreadthFirst.ComputeBFSSteps | app/utils/PathingAlgorithms.tsx:491-635 | the method returns exactly `Trace(q)` |
| BreadthFirst.EnqueueNeighbors | app/utils/PathingAlgorithms.tsx:591-610 | the direction loop returns exactly `Enqueue` |
| BreadthFirst.TraceSound | app/utils/PathingAlgorithms.tsx:491-635 | the same trace guarantees as for A*, for a loop bounded only by the cells left to visit |
| BreadthFirst.StepBooks | app/utils/PathingAlgorithms.tsx:596-609 | each position is in the queue at most once, and every queued position is already visited |
| BreadthFirst.InitBooks | app/utils/PathingAlgorithms.tsx:503-507 | the start alone is queued and visited |
| BreadthFirst.StepExpansion | app/utils/PathingAlgorithms.tsx:544-613 | a pass drops a skipped entry, stops at the goal after its "current" snapshot, or expands the dequeued cell; the old queue stays in front of the new entries |
| BreadthFirst.StepEnqueues | app/utils/PathingAlgorithms.tsx:591-609 | every passable neighbour not visited before is enqueued with the path extended by it and marked visited; nothing else is enqueued |
| BreadthFirst.StartIsGoal | app/utils/PathingAlgorithms.tsx:541-573 | start equal to goal gives two snapshots and a path |
| GreedyBestFirst.ComputeGreedyBestFirstSteps | app/utils/PathingAlgorithms.tsx:638-788 | the method returns exactly `Trace(q)` |
| GreedyBestFirst.PushNeighbors | app/utils/PathingAlgorithms.tsx:744-763 | the direction loop returns exactly `PushFrom` |
| GreedyBestFirst.Manhattan | app/utils/PathingAlgorithms.tsx:669-674 | the distance is never negative and is zero exactly at the goal |
| GreedyBestFirst.TraceSound | app/utils/PathingAlgorithms.tsx:638-788 | the same trace guarantees as for A*, for a loop bounded only by the cells left to visit |
| GreedyBestFirst.PopsNearest | app/utils/PathingAlgorithms.tsx:699-703 | the popped entry has the least score in the open list: it is the start's own entry or the open cell nearest the goal |
| GreedyBestFirst.StepScores | app/utils/PathingAlgorithms.tsx:758-761 | every open entry stays scored by its Manhattan distance to the goal |
| GreedyBestFirst.StepExpansion | app/utils/PathingAlgorithms.tsx:703-766 | a pass drops a visited cell, stops at the goal, or expands a cell not visited before, so each cell is expanded at most once |
| GreedyBestFirst.StepPushes | app/utils/PathingAlgorithms.tsx:744-763 | an expansion pushes exactly the entries of the unvisited passable neighbours and keeps every other open entry |
| GreedyBestFirst.StartIsGoal | app/utils/PathingAlgorithms.tsx:697-726 | start equal to goal gives two snapshots and a path |
| PathReconstruction.ReconstructPathSteps | app/utils/PathingAlgorithms.tsx:106-173 | the method returns exactly `ReconstructPath` |
| PathReconstruction.BacktrackPath | app/utils/PathingAlgorithms.tsx:124-141 | the backtracking loop returns exactly `Backtrack` |
| PathReconstruction.ClearCurrent | app/utils/PathingAlgorithms.tsx:147-153 | the nested loops return exactly `Cleared` |
| PathReconstruction.DrawTrail | app/utils/PathingAlgorithms.tsx:157-170 | the path loop returns exactly `Trail` |
| PathReconstruction.ReconstructWalk | app/utils/PathingAlgorithms.tsx:118-141 | an empty map yields no snapshots; otherwise the walk ends at the goal, follows `cameFrom` at each step, begins where no predecessor is recorded unless cut at `rows * cols + 1` positions, and gets one snapshot per position |
| PathReconstruction.ReconstructCells | app/utils/PathingAlgorithms.tsx:143-170 | in snapshot `i` no cell is `current`; a cell is `path` exactly when it is among the first `i + 1` walk positions and not start or goal; every other cell is as in the base grid with `current` turned into `visited` |
| PathReconstruction.BacktrackChain | app/utils/PathingAlgorithms.tsx:124-141 | each step of the walk follows `cameFrom`, and it stops at a position without predecessor or beyond the length bound |
| PathReconstruction.BacktrackBound | app/utils/PathingAlgorithms.tsx:137-140 | the walk holds at most `rows * cols + 1` positions |
| PathReconstruction.ClearedCells | app/utils/PathingAlgorithms.tsx:147-153 | no cell of the cleared grid is `current`, and every other cell keeps its value |
| PathReconstruction.TrailCells | app/utils/PathingAlgorithms.tsx:157-170 | snapshot `i` marks exactly the first `i + 1` path cells that are not start or goal |

## Left out

- Console output, the JSON deep copies and the string keys `"row,col"` are not modelled. Copies are values, keys are `(row, col)` pairs in sets and maps, and descriptions are a datatype instead of formatted text.
- JavaScript numbers are modelled as unbounded integers. NaN, fractions and the loss of precision past 2^53 are not modelled.
- A*'s Euclidean heuristic (`Math.sqrt`, floating point) is a parameter `h`. Nothing proved depends on its values. As a consequence the order in which A* expands cells with tied fScores is only what the stable sort gives.
- A* stores `gScore.get(k) || Infinity`, which reads a stored 0 as missing. The model keeps this reading exactly (`Better`) instead of a `None` for infinity.
- The direction loops of BFS and Greedy read the grid as passed in, so a `wall` there is never entered. The searches require the start cell to lie on the grid. A start row off the grid makes the first frontier snapshot throw. A start column off the grid does not throw: the cell write lands past the end of the JavaScript row array and the search goes on, and the model does not represent such writes. The callers only pass cells of the grid. The goal may lie anywhere.
- BreadthFirst.TraceSound: the promise that BFS finds a shortest path in edge count is not proved. The model proves that the path is a walk from start to goal.
- BreadthFirst.StepExpansion: that the "skip if already visited" branch never fires on a grid without `visited` or `current` cells is not proved. The branch is modelled as written, including its test of the last snapshot.
- AStar.StepBooks: A*'s open-list bookkeeping is stated as an invariant that every pass preserves. It is not stated as one closed formula over the whole run.
- InsertionSort.InsertionSortEnds: the exact number of shifts per pass is stated only as bounds, 1 to `1 + i` snapshots per pass.
- PathReconstruction.ReconstructPathSteps requires a shaped grid, a goal on it and predecessors on it. A row off the grid makes the source throw. A column off the grid, or a ragged `baseGrid`, reads `undefined` and writes past the end of a row instead, which the model does not represent. The exported function has no caller in the app, whose page uses a local function of the same name.
- The test harnesses and the UI pages, API routes and persistence code of the app are not part of this model.

Three facts about the code a reader might not expect:
- Not every snapshot is a permutation of the input: insertion sort's shift snapshots duplicate a value (`InsertionSort.InsertionSortShifts`).
- `descriptions` is not always as long as `steps`: insertion sort adds one "Picked element" description per pass and quicksort one "Pivot chosen" per partition.
- BFS and Greedy scan the neighbours up, right, down, left, while the A* neighbour helper `getNeighbors` scans up, down, left, right.
