/** `computeBubbleSortSteps` of app/utils/SortingAlgorithms.tsx: passes
    `i = 0 .. n-2`, each comparing the adjacent pairs `j, j+1` for
    `j < n - i - 1` and swapping a pair whose left value is strictly greater. */
module BubbleSort {
  import opened SortOrder
  import opened SortTrace

  /** Comparisons made by passes 0 .. i-1 on `n` elements. */
  function BubbleComparisons(n: nat, i: nat): nat
    requires i <= n
  {
    if i == 0 then 0 else BubbleComparisons(n, i - 1) + (n - i)
  }

  lemma {:induction false} BubbleComparisonsClosed(n: nat, i: nat)
    requires i <= n
    ensures 2 * BubbleComparisons(n, i) == i * (2 * n - 1 - i)
  {
    if i > 0 {
      BubbleComparisonsClosed(n, i - 1);
    }
  }

  /** The highlights of passes 0 .. i-1 and of the first `j` comparisons of
      pass `i`: comparison `j` of every pass highlights `[j, j + 1]`. */
  function BubblePairs(n: nat, i: nat, j: nat): (r: seq<seq<int>>)
    requires i + j <= Passes(n)
    ensures |r| == BubbleComparisons(n, i) + j
    decreases i, j
  {
    if j > 0 then BubblePairs(n, i, j - 1) + [[j - 1, j]]
    else if i > 0 then BubblePairs(n, i - 1, n - i)
    else []
  }

  /** The sorted marks recorded alongside `BubblePairs(n, i, j)`: during pass
      `i`, the last `i` indices. */
  function BubbleMarks(n: nat, i: nat, j: nat): (r: seq<seq<int>>)
    requires i + j <= Passes(n)
    ensures |r| == BubbleComparisons(n, i) + j
    decreases i, j
  {
    if j > 0 then BubbleMarks(n, i, j - 1) + [TailIndices(n, i)]
    else if i > 0 then BubbleMarks(n, i - 1, n - i)
    else []
  }

  /** Comparison `j'` of pass `i'` is entry BubbleComparisons(n, i') + j' of
      the schedule: it highlights `[j', j' + 1]` and marks the last `i'`
      indices as sorted. */
  lemma {:induction false} BubbleScheduleAt(n: nat, i: nat, j: nat, i': nat, j': nat)
    requires i + j <= Passes(n)
    requires j' < n - 1 - i' && (i' < i || (i' == i && j' < j))
    ensures BubbleComparisons(n, i') + j' < BubbleComparisons(n, i) + j
    ensures BubblePairs(n, i, j)[BubbleComparisons(n, i') + j'] == [j', j' + 1]
    ensures BubbleMarks(n, i, j)[BubbleComparisons(n, i') + j'] == TailIndices(n, i')
    decreases i, j
  {
    if j > 0 {
      if !(i' == i && j' == j - 1) {
        BubbleScheduleAt(n, i, j - 1, i', j');
      }
    } else {
      BubbleScheduleAt(n, i - 1, n - i, i', j');
    }
  }

  /** One comparison: the working array afterwards. */
  function BubbleCompare(a: seq<int>, j: int): (r: seq<int>)
    requires 0 <= j && j + 1 < |a|
    ensures |r| == |a|
  {
    if a[j] > a[j + 1] then Swap(a, j, j + 1) else a
  }

  /** A comparison permutes the array and leaves the larger value of the pair on the right. */
  lemma {:induction false} BubbleCompareFacts(a: seq<int>, j: int)
    requires 0 <= j && j + 1 < |a|
    ensures multiset(BubbleCompare(a, j)) == multiset(a)
    ensures BubbleCompare(a, j)[j] <= BubbleCompare(a, j)[j + 1]
    ensures BubbleCompare(a, j)[j + 1] == if a[j] > a[j + 1] then a[j] else a[j + 1]
  {
    SwapPermutes(a, j, j + 1);
  }

  /** The description pushed for comparison `j`. */
  function BubbleNote(a: seq<int>, j: int): Description
    requires 0 <= j && j + 1 < |a|
  {
    if a[j] > a[j + 1] then SwappedAdjacent(j, j + 1) else ComparedNoSwap(a[j], a[j + 1])
  }

  /** The run's state between two turns of the inner loop. */
  datatype Bub = Bub(r: SortResult, a: seq<int>, i: nat, j: nat)

  /** One turn: comparison `j` of pass `i`, or the end of pass `i`. */
  function BubbleNext(r: SortResult, a: seq<int>, i: nat, j: nat): (s: Bub)
    requires i + j <= Passes(|a|) && i < Passes(|a|)
    ensures |s.a| == |a| && s.i + s.j <= Passes(|a|)
    ensures s.i == i + 1 || (s.i == i && s.j == j + 1)
  {
    var n := |a|;
    if j == n - i - 1 then Bub(r, a, i + 1, 0)
    else Bub(Record(r, BubbleCompare(a, j), [j, j + 1], BubbleNote(a, j), TailIndices(n, i)),
             BubbleCompare(a, j), i, j + 1)
  }

  /** The rest of the run from comparison `j` of pass `i`, with trace `r` and
      working array `a`: what the two loops and the final push append. */
  function BubbleRun(r: SortResult, a: seq<int>, i: nat, j: nat): SortResult
    requires i + j <= Passes(|a|)
    decreases Passes(|a|) - i, |a| - j
  {
    if i == Passes(|a|) then
      Record(r, a, [], FullySorted, Range(|a|))
    else
      var s := BubbleNext(r, a, i, j);
      BubbleRun(s.r, s.a, s.i, s.j)
  }

  /** The trace `computeBubbleSortSteps(input)` returns. */
  function BubbleSortTrace(input: seq<int>): SortResult {
    BubbleRun(Initial(input), input, 0, 0)
  }

  /** One recorded comparison: `h` is an adjacent pair, and the pair is
      swapped exactly when its left value is strictly greater. */
  predicate BubbleMove(prev: seq<int>, cur: seq<int>, h: seq<int>, d: Description) {
    |h| == 2 && 0 <= h[0] && h[1] == h[0] + 1 && h[1] < |prev| &&
    if prev[h[0]] > prev[h[1]] then
      cur == Swap(prev, h[0], h[1]) && d == SwappedAdjacent(h[0], h[1])
    else
      cur == prev && d == ComparedNoSwap(prev[h[0]], prev[h[1]])
  }

  /** Every entry from 1 up to (not including) `upTo` is a bubble move from the one before. */
  predicate BubbleMoves(r: SortResult, upTo: int) {
    Aligned(r) && |r.descriptions| == |r.steps| && upTo <= |r.steps| &&
    forall k :: 1 <= k < upTo ==>
      BubbleMove(r.steps[k - 1], r.steps[k], r.highlights[k], r.descriptions[k])
  }

  /** One turn extends the highlight and sorted-index lists by the schedule. */
  lemma {:induction false} BubbleScheduleNext(r: SortResult, a: seq<int>, i: nat, j: nat)
    requires i + j <= Passes(|a|) && i < Passes(|a|)
    requires r.highlights == [[]] + BubblePairs(|a|, i, j)
    requires r.sortedIndices == [[]] + BubbleMarks(|a|, i, j)
    requires |r.steps| == |r.highlights| == |r.descriptions|
    ensures var s := BubbleNext(r, a, i, j);
            s.r.highlights == [[]] + BubblePairs(|a|, s.i, s.j) &&
            s.r.sortedIndices == [[]] + BubbleMarks(|a|, s.i, s.j) &&
            |s.r.steps| == |s.r.highlights| == |s.r.descriptions|
  {
  }

  /** The highlight and sorted-index lists follow the schedule, and the trace
      ends with the closing entry. */
  lemma {:induction false} BubbleRunSchedule(r: SortResult, a: seq<int>, i: nat, j: nat)
    requires i + j <= Passes(|a|)
    requires r.highlights == [[]] + BubblePairs(|a|, i, j)
    requires r.sortedIndices == [[]] + BubbleMarks(|a|, i, j)
    requires |r.steps| == |r.highlights| == |r.descriptions|
    ensures var t := BubbleRun(r, a, i, j);
            t.highlights == [[]] + BubblePairs(|a|, Passes(|a|), 0) + [[]] &&
            t.sortedIndices == [[]] + BubbleMarks(|a|, Passes(|a|), 0) + [Range(|a|)] &&
            |t.steps| == |t.highlights| == |t.descriptions| &&
            t.descriptions[|t.descriptions| - 1] == FullySorted
    decreases Passes(|a|) - i, |a| - j
  {
    if i < Passes(|a|) {
      var s := BubbleNext(r, a, i, j);
      BubbleScheduleNext(r, a, i, j);
      BubbleRunSchedule(s.r, s.a, s.i, s.j);
    }
  }

  /** The run only appends: the opening entry stays in place. */
  lemma {:induction false} BubbleRunOpens(r: SortResult, input: seq<int>, a: seq<int>, i: nat, j: nat)
    requires i + j <= Passes(|a|) && OpensWith(r, input)
    ensures OpensWith(BubbleRun(r, a, i, j), input)
    decreases Passes(|a|) - i, |a| - j
  {
    if i < Passes(|a|) {
      var s := BubbleNext(r, a, i, j);
      BubbleRunOpens(s.r, input, s.a, s.i, s.j);
    }
  }

  /** One turn keeps every snapshot and the working array a permutation of the input. */
  lemma {:induction false} BubbleSnapshotsNext(r: SortResult, input: seq<int>, a: seq<int>, i: nat, j: nat)
    requires i + j <= Passes(|a|) && i < Passes(|a|) && |a| == |input| && multiset(a) == multiset(input)
    requires AllOfLength(r, |a|) && AllPermutations(r, input)
    ensures var s := BubbleNext(r, a, i, j);
            multiset(s.a) == multiset(input) && AllOfLength(s.r, |a|) && AllPermutations(s.r, input)
  {
    if j < |a| - i - 1 {
      BubbleCompareFacts(a, j);
      SnapshotRecorded(r, input, BubbleCompare(a, j), [j, j + 1], BubbleNote(a, j), TailIndices(|a|, i));
    }
  }

  /** Every snapshot keeps the input's length and values. */
  lemma {:induction false} BubbleRunSnapshots(r: SortResult, input: seq<int>, a: seq<int>, i: nat, j: nat)
    requires i + j <= Passes(|a|) && |a| == |input| && multiset(a) == multiset(input)
    requires AllOfLength(r, |a|) && AllPermutations(r, input)
    ensures AllOfLength(BubbleRun(r, a, i, j), |a|) && AllPermutations(BubbleRun(r, a, i, j), input)
    decreases Passes(|a|) - i, |a| - j
  {
    if i == Passes(|a|) {
      SnapshotRecorded(r, input, a, [], FullySorted, Range(|a|));
    } else {
      var s := BubbleNext(r, a, i, j);
      BubbleSnapshotsNext(r, input, a, i, j);
      BubbleRunSnapshots(s.r, input, s.a, s.i, s.j);
    }
  }

  /** One turn records a bubble move from the working array, or nothing. */
  lemma {:induction false} BubbleMovesNext(r: SortResult, a: seq<int>, i: nat, j: nat)
    requires i + j <= Passes(|a|) && i < Passes(|a|)
    requires BubbleMoves(r, |r.steps|) && |r.steps| > 0 && r.steps[|r.steps| - 1] == a
    ensures var s := BubbleNext(r, a, i, j);
            BubbleMoves(s.r, |s.r.steps|) && |s.r.steps| > 0 && s.r.steps[|s.r.steps| - 1] == s.a
  {
    if j < |a| - i - 1 {
      assert BubbleMove(a, BubbleCompare(a, j), [j, j + 1], BubbleNote(a, j));
    }
  }

  /** Each entry before the closing one is a bubble move from the one before. */
  lemma {:induction false} BubbleRunMoves(r: SortResult, a: seq<int>, i: nat, j: nat)
    requires i + j <= Passes(|a|)
    requires BubbleMoves(r, |r.steps|) && |r.steps| > 0 && r.steps[|r.steps| - 1] == a
    ensures BubbleMoves(BubbleRun(r, a, i, j), |BubbleRun(r, a, i, j).steps| - 1)
    decreases Passes(|a|) - i, |a| - j
  {
    if i < Passes(|a|) {
      var s := BubbleNext(r, a, i, j);
      BubbleMovesNext(r, a, i, j);
      BubbleRunMoves(s.r, s.a, s.i, s.j);
    }
  }

  /** The array the remaining comparisons of passes `i ..` leave behind. */
  function BubbleArray(a: seq<int>, i: nat, j: nat): (r: seq<int>)
    requires i + j <= Passes(|a|)
    ensures |r| == |a|
    decreases Passes(|a|) - i, |a| - j
  {
    var n := |a|;
    if i == Passes(n) then a
    else if j == n - i - 1 then BubbleArray(a, i + 1, 0)
    else BubbleArray(BubbleCompare(a, j), i, j + 1)
  }

  /** The closing snapshot is the array the comparisons leave behind. */
  lemma {:induction false} BubbleRunLast(r: SortResult, a: seq<int>, i: nat, j: nat)
    requires i + j <= Passes(|a|)
    ensures var t := BubbleRun(r, a, i, j);
            |t.steps| > 0 && t.steps[|t.steps| - 1] == BubbleArray(a, i, j)
    decreases Passes(|a|) - i, |a| - j
  {
    if i < Passes(|a|) {
      var s := BubbleNext(r, a, i, j);
      BubbleRunLast(s.r, s.a, s.i, s.j);
    }
  }

  /** Bubble sort's order invariant: `a[m..]` is sorted and no smaller than
      anything before it, and `a[j]` is the largest of `a[..j+1]`. */
  ghost predicate BubbleOrder(a: seq<int>, m: int, j: int) {
    0 <= j < |a| && j < m <= |a| &&
    (forall x, y :: m <= x < y < |a| ==> a[x] <= a[y]) &&
    (forall x, y :: 0 <= x < m <= y < |a| ==> a[x] <= a[y]) &&
    (forall x :: 0 <= x < j ==> a[x] <= a[j])
  }

  lemma {:induction false} BubbleOrderStep(a: seq<int>, m: int, j: int)
    requires BubbleOrder(a, m, j) && j + 1 < m
    ensures BubbleOrder(BubbleCompare(a, j), m, j + 1)
  {
    BubbleCompareFacts(a, j);
  }

  lemma {:induction false} BubbleOrderPass(a: seq<int>, m: int)
    requires m >= 2 && BubbleOrder(a, m, m - 1)
    ensures BubbleOrder(a, m - 1, 0)
  {
  }

  lemma {:induction false} BubbleOrderDone(a: seq<int>)
    requires BubbleOrder(a, 1, 0)
    ensures Sorted(a)
  {
  }

  /** The comparisons only move values around. */
  lemma {:induction false} BubbleArrayPermutes(a: seq<int>, i: nat, j: nat)
    requires i + j <= Passes(|a|)
    ensures multiset(BubbleArray(a, i, j)) == multiset(a)
    decreases Passes(|a|) - i, |a| - j
  {
    var n := |a|;
    if i == Passes(n) {
    } else if j == n - i - 1 {
      BubbleArrayPermutes(a, i + 1, 0);
    } else {
      BubbleCompareFacts(a, j);
      BubbleArrayPermutes(BubbleCompare(a, j), i, j + 1);
    }
  }

  /** One turn keeps the order invariant, in the terms of the next position. */
  lemma {:induction false} BubbleOrderNext(a: seq<int>, i: nat, j: nat) returns (a': seq<int>, i': nat, j': nat)
    requires i + j <= Passes(|a|) && i < Passes(|a|) && BubbleOrder(a, |a| - i, j)
    ensures i' + j' <= Passes(|a|) && (i' == i + 1 || (i' == i && j' == j + 1))
    ensures |a'| == |a| && BubbleOrder(a', |a| - i', j')
    ensures BubbleArray(a, i, j) == BubbleArray(a', i', j')
  {
    if j == |a| - i - 1 {
      BubbleOrderPass(a, |a| - i);
      a', i', j' := a, i + 1, 0;
    } else {
      BubbleOrderStep(a, |a| - i, j);
      a', i', j' := BubbleCompare(a, j), i, j + 1;
    }
  }

  /** The comparisons leave the array in ascending order. */
  lemma {:induction false} BubbleArraySorts(a: seq<int>, i: nat, j: nat)
    requires i + j <= Passes(|a|)
    requires |a| > 0 ==> BubbleOrder(a, |a| - i, j)
    ensures Sorted(BubbleArray(a, i, j))
    decreases Passes(|a|) - i, |a| - j
  {
    if i == Passes(|a|) {
      if |a| > 0 {
        BubbleOrderDone(a);
      }
    } else {
      var a', i', j' := BubbleOrderNext(a, i, j);
      BubbleArraySorts(a', i', j');
    }
  }

  /** Indices a pass lists as sorted already hold their final values. */
  lemma {:induction false} BubbleRunSettles(r: SortResult, a: seq<int>, i: nat, j: nat)
    requires i + j <= Passes(|a|) && MarksAgree(r, a, |a| - i, |a|)
    ensures Settled(BubbleRun(r, a, i, j))
    decreases Passes(|a|) - i, |a| - j
  {
    if i == Passes(|a|) {
      MarksSettleAtClose(r, a, |a| - i, |a|);
    } else {
      var s := BubbleNext(r, a, i, j);
      BubbleRunSettles(s.r, s.a, s.i, s.j);
    }
  }

  /** The trace opens with the input, closes with its ascending sort, and
      has one entry per comparison in between: n(n-1)/2 of them. */
  lemma {:induction false} BubbleSortEnds(input: seq<int>)
    ensures var t := BubbleSortTrace(input);
            OpensWith(t, input) && ClosesWith(t, input) && Aligned(t) &&
            |t.descriptions| == |t.steps| == 2 + |input| * (|input| - 1) / 2
  {
    var n := |input|;
    var r := Initial(input);
    var t := BubbleSortTrace(input);
    BubbleRunSchedule(r, input, 0, 0);
    BubbleRunOpens(r, input, input, 0, 0);
    BubbleRunLast(r, input, 0, 0);
    BubbleArraySorts(input, 0, 0);
    BubbleArrayPermutes(input, 0, 0);
    SortedPermutationIsAscending(input, t.steps[|t.steps| - 1]);
    if n > 0 {
      BubbleComparisonsClosed(n, n - 1);
      assert 2 * BubbleComparisons(n, n - 1) == (n - 1) * n;
    }
  }

  /** Comparison `j` of pass `i` highlights `[j, j + 1]` and lists the last
      `i` indices as sorted, in pass order (see BubbleScheduleAt). */
  lemma {:induction false} BubbleSortSchedule(input: seq<int>)
    ensures var t := BubbleSortTrace(input);
            t.highlights == [[]] + BubblePairs(|input|, Passes(|input|), 0) + [[]] &&
            t.sortedIndices == [[]] + BubbleMarks(|input|, Passes(|input|), 0) + [Range(|input|)]
  {
    BubbleRunSchedule(Initial(input), input, 0, 0);
  }

  /** Every snapshot is a permutation of the input, and every entry but the
      first and the last compares the highlighted adjacent pair of the
      previous snapshot and swaps it exactly when it is out of order. */
  lemma {:induction false} BubbleSortMoves(input: seq<int>)
    ensures var t := BubbleSortTrace(input);
            AllOfLength(t, |input|) && AllPermutations(t, input) && BubbleMoves(t, |t.steps| - 1)
  {
    BubbleRunSnapshots(Initial(input), input, input, 0, 0);
    BubbleRunMoves(Initial(input), input, 0, 0);
  }

  /** Every index the trace lists as sorted already holds its final value. */
  lemma {:induction false} BubbleSortSettled(input: seq<int>)
    ensures Settled(BubbleSortTrace(input))
  {
    BubbleRunSettles(Initial(input), input, 0, 0);
  }

  method ComputeBubbleSortSteps(input: seq<int>) returns (r: SortResult)
    ensures r == BubbleSortTrace(input)
  {
    var n := |input|;
    var arr := new int[n](k requires 0 <= k < n => input[k]);
    assert arr[..] == input;
    r := Initial(arr[..]);
    var i := 0;
    while i < n - 1
      invariant 0 <= i <= Passes(n)
      invariant BubbleRun(r, arr[..], i, 0) == BubbleSortTrace(input)
    {
      var j := 0;
      while j < n - i - 1
        invariant 0 <= j <= n - i - 1
        invariant BubbleRun(r, arr[..], i, j) == BubbleSortTrace(input)
      {
        ghost var a := arr[..];
        var d;
        if arr[j] > arr[j + 1] {
          arr[j], arr[j + 1] := arr[j + 1], arr[j];
          d := SwappedAdjacent(j, j + 1);
        } else {
          d := ComparedNoSwap(arr[j], arr[j + 1]);
        }
        assert arr[..] == BubbleCompare(a, j) && d == BubbleNote(a, j);
        r := Record(r, arr[..], [j, j + 1], d, TailIndices(n, i));
        j := j + 1;
      }
      i := i + 1;
    }
    r := Record(r, arr[..], [], FullySorted, Range(n));
  }
}
