/** `computeSelectionSortSteps` of app/utils/SortingAlgorithms.tsx: pass `i`
    compares index `i` with every later index `j`, tracking the first
    position of the smallest value, and then swaps that position into `i`
    unless it already is `i`. */
module SelectionSort {
  import opened SortOrder
  import opened SortTrace

  // ------------------------------------------------------------ schedule

  /** The index pairs compared before comparison `(i, j)`, in loop order:
      every pair of passes 0 .. i-1, then `(i, i+1) .. (i, j-1)`. */
  function Pairs(n: nat, i: nat, j: nat): seq<(int, int)>
    requires i < j <= n || (j == i + 1 && i <= n)
    decreases i, j
  {
    if j > i + 1 then Pairs(n, i, j - 1) + [(i, j - 1)]
    else if i > 0 then Pairs(n, i - 1, n)
    else []
  }

  /** Every pair the two loops compare. */
  function AllPairs(n: nat): seq<(int, int)> {
    Pairs(n, Passes(n), Passes(n) + 1)
  }

  lemma {:induction false} PairsCount(n: nat, i: nat, j: nat)
    requires i < j <= n || (j == i + 1 && i <= n)
    ensures 2 * |Pairs(n, i, j)| == i * (2 * n - 1 - i) + 2 * (j - i - 1)
    decreases i, j
  {
    if j > i + 1 {
      PairsCount(n, i, j - 1);
    } else if i > 0 {
      PairsCount(n, i - 1, n);
    }
  }

  lemma {:induction false} PairsMembers(n: nat, i: nat, j: nat, x: int, y: int)
    requires i < j <= n || (j == i + 1 && i <= n)
    ensures (x, y) in Pairs(n, i, j) <==> 0 <= x < y < n && (x < i || (x == i && y < j))
    decreases i, j
  {
    if j > i + 1 {
      PairsMembers(n, i, j - 1, x, y);
    } else if i > 0 {
      PairsMembers(n, i - 1, n, x, y);
    }
  }

  /** Selection sort compares n(n-1)/2 pairs: each `(x, y)` with `x < y < n`. */
  lemma {:induction false} AllPairsExactly(n: nat, x: int, y: int)
    ensures 2 * |AllPairs(n)| == n * (n - 1)
    ensures (x, y) in AllPairs(n) <==> 0 <= x < y < n
  {
    PairsCount(n, Passes(n), Passes(n) + 1);
    PairsMembers(n, Passes(n), Passes(n) + 1, x, y);
  }

  /** The pair a description names, if it is a comparison. */
  function PairOf(d: Description): seq<(int, int)> {
    match d
    case ComparedIndices(i, j) => [(i, j)]
    case _ => []
  }

  /** The pairs the comparison descriptions of `ds` name, in order. */
  function Compared(ds: seq<Description>): seq<(int, int)> {
    if ds == [] then [] else Compared(ds[..|ds| - 1]) + PairOf(ds[|ds| - 1])
  }

  lemma {:induction false} ComparedAppend(ds: seq<Description>, d: Description)
    ensures Compared(ds + [d]) == Compared(ds) + PairOf(d)
  {
    assert (ds + [d])[..|ds|] == ds;
  }

  // ------------------------------------------------------------ the run

  /** Where the loops can be: pass `i`, next comparison `j`, candidate `m`. */
  predicate SelectionPos(n: nat, i: nat, j: nat, m: nat) {
    i <= Passes(n) && i <= m < j && (j <= n || j == i + 1)
  }

  /** The rest of the run from comparison `j` of pass `i` with minimum
      candidate `m`, trace `r` and working array `a`. */
  function SelectionRun(r: SortResult, a: seq<int>, i: nat, j: nat, m: nat): SortResult
    requires SelectionPos(|a|, i, j, m)
    decreases Passes(|a|) - i, |a| - j
  {
    var n := |a|;
    if i == Passes(n) then
      Record(r, a, [], FullySorted, Range(n))
    else if j < n then
      SelectionRun(Record(r, a, [i, j], ComparedIndices(i, j), Range(i)), a, i, j + 1, if a[j] < a[m] then j else m)
    else if m != i then
      SelectionRun(Record(r, Swap(a, i, m), [i, m], SwappedWithMin(i, m), Range(i + 1)), Swap(a, i, m), i + 1, i + 2, i + 1)
    else
      SelectionRun(r, a, i + 1, i + 2, i + 1)
  }

  /** The state the loops move to after one comparison, or after the end of pass `i`. */
  datatype Sel = Sel(r: SortResult, a: seq<int>, i: nat, j: nat, m: nat)

  /** One move of the loops from comparison `j` of pass `i`. */
  function SelectionNext(r: SortResult, a: seq<int>, i: nat, j: nat, m: nat): (s: Sel)
    requires SelectionPos(|a|, i, j, m) && i < Passes(|a|)
    ensures |s.a| == |a| && SelectionPos(|a|, s.i, s.j, s.m)
    ensures s.i == i + 1 || (s.i == i && s.j == j + 1)
  {
    if j < |a| then
      Sel(Record(r, a, [i, j], ComparedIndices(i, j), Range(i)), a, i, j + 1, if a[j] < a[m] then j else m)
    else if m != i then
      Sel(Record(r, Swap(a, i, m), [i, m], SwappedWithMin(i, m), Range(i + 1)), Swap(a, i, m), i + 1, i + 2, i + 1)
    else
      Sel(r, a, i + 1, i + 2, i + 1)
  }

  /** Before the last pass is done, the run is the run from the next state. */
  lemma {:induction false} SelectionRunNext(r: SortResult, a: seq<int>, i: nat, j: nat, m: nat) returns (s: Sel)
    requires SelectionPos(|a|, i, j, m) && i < Passes(|a|)
    ensures s == SelectionNext(r, a, i, j, m)
    ensures SelectionRun(r, a, i, j, m) == SelectionRun(s.r, s.a, s.i, s.j, s.m)
  {
    s := SelectionNext(r, a, i, j, m);
  }

  /** The trace `computeSelectionSortSteps(input)` returns. */
  function SelectionSortTrace(input: seq<int>): SortResult {
    SelectionRun(Initial(input), input, 0, 1, 0)
  }

  /** The array the rest of the run leaves behind. */
  function SelectionArray(a: seq<int>, i: nat, j: nat, m: nat): (r: seq<int>)
    requires SelectionPos(|a|, i, j, m)
    ensures |r| == |a|
    decreases Passes(|a|) - i, |a| - j
  {
    var n := |a|;
    if i == Passes(n) then a
    else if j < n then SelectionArray(a, i, j + 1, if a[j] < a[m] then j else m)
    else if m != i then SelectionArray(Swap(a, i, m), i + 1, i + 2, i + 1)
    else SelectionArray(a, i + 1, i + 2, i + 1)
  }

  // ------------------------------------------------------------ entries

  /** Entry `k` against entry `k - 1`: either the comparison of `(i, j)`,
      which leaves the array alone and lists `0 .. i-1` as sorted, or the
      swap that closes pass `i`, which brings the first minimum of
      `prev[i..]` from `m` to `i` and lists `0 .. i` as sorted. */
  predicate SelectionStep(t: SortResult, k: int, n: int)
    requires Aligned(t) && |t.descriptions| == |t.steps| && 1 <= k < |t.steps|
  {
    var prev := t.steps[k - 1];
    match t.descriptions[k]
    case ComparedIndices(i, j) =>
      0 <= i < j < n && t.highlights[k] == [i, j] && t.steps[k] == prev &&
      t.sortedIndices[k] == Range(i)
    case SwappedWithMin(i, m) =>
      0 <= i < m < n && |prev| == n && t.highlights[k] == [i, m] &&
      IsFirstMin(prev, i, m) && t.steps[k] == Swap(prev, i, m) &&
      t.sortedIndices[k] == Range(i + 1) && t.descriptions[k - 1] == ComparedIndices(i, n - 1)
    case _ => false
  }

  predicate SelectionSteps(t: SortResult, upTo: int, n: int) {
    Aligned(t) && |t.descriptions| == |t.steps| && upTo <= |t.steps| &&
    forall k :: 1 <= k < upTo ==> SelectionStep(t, k, n)
  }

  /** After the last comparison `(i, n-1)` of a pass comes a swap exactly
      when `i` is not already the first minimum of the rest of the array. */
  predicate PassClosed(t: SortResult, k: int, n: int)
    requires |t.descriptions| == |t.steps| && 0 <= k < |t.steps| - 1
  {
    match t.descriptions[k]
    case ComparedIndices(i, j) =>
      j == n - 1 ==> (t.descriptions[k + 1].SwappedWithMin? <==> !IsFirstMin(t.steps[k], i, i))
    case _ => true
  }

  predicate PassesClosed(t: SortResult, upTo: int, n: int) {
    |t.descriptions| == |t.steps| && upTo < |t.steps| &&
    forall k :: 0 <= k < upTo ==> PassClosed(t, k, n)
  }

  // ------------------------------------------------------------ run lemmas

  /** The run only appends: the opening entry stays. */
  lemma {:induction false} SelectionRunOpens(r: SortResult, input: seq<int>, a: seq<int>, i: nat, j: nat, m: nat)
    requires SelectionPos(|a|, i, j, m) && OpensWith(r, input)
    ensures OpensWith(SelectionRun(r, a, i, j, m), input)
    decreases Passes(|a|) - i, |a| - j
  {
    var n := |a|;
    if i == Passes(n) {
    } else if j < n {
      SelectionRunOpens(Record(r, a, [i, j], ComparedIndices(i, j), Range(i)), input, a, i, j + 1, if a[j] < a[m] then j else m);
    } else if m != i {
      SelectionRunOpens(Record(r, Swap(a, i, m), [i, m], SwappedWithMin(i, m), Range(i + 1)), input, Swap(a, i, m), i + 1, i + 2, i + 1);
    } else {
      SelectionRunOpens(r, input, a, i + 1, i + 2, i + 1);
    }
  }

  /** The lists stay parallel and the run ends with the closing entry. */
  lemma {:induction false} SelectionRunShape(r: SortResult, a: seq<int>, i: nat, j: nat, m: nat)
    requires SelectionPos(|a|, i, j, m)
    requires Aligned(r) && |r.descriptions| == |r.steps|
    ensures var t := SelectionRun(r, a, i, j, m);
            Aligned(t) && |t.descriptions| == |t.steps| > |r.steps| &&
            t.highlights[|t.steps| - 1] == [] && t.descriptions[|t.steps| - 1] == FullySorted &&
            t.sortedIndices[|t.steps| - 1] == Range(|a|)
    decreases Passes(|a|) - i, |a| - j
  {
    var n := |a|;
    if i == Passes(n) {
    } else if j < n {
      SelectionRunShape(Record(r, a, [i, j], ComparedIndices(i, j), Range(i)), a, i, j + 1, if a[j] < a[m] then j else m);
    } else if m != i {
      SelectionRunShape(Record(r, Swap(a, i, m), [i, m], SwappedWithMin(i, m), Range(i + 1)), Swap(a, i, m), i + 1, i + 2, i + 1);
    } else {
      SelectionRunShape(r, a, i + 1, i + 2, i + 1);
    }
  }

  /** Besides the comparisons and the closing entry, the run records at most
      one entry (the swap) per pass. */
  lemma {:induction false} SelectionRunCount(r: SortResult, a: seq<int>, i: nat, j: nat, m: nat)
    requires SelectionPos(|a|, i, j, m)
    requires 1 + |Pairs(|a|, i, j)| <= |r.steps| <= 1 + |Pairs(|a|, i, j)| + i
    ensures var t := SelectionRun(r, a, i, j, m);
            2 + |AllPairs(|a|)| <= |t.steps| <= 2 + |AllPairs(|a|)| + Passes(|a|)
    decreases Passes(|a|) - i, |a| - j
  {
    var n := |a|;
    if i == Passes(n) {
    } else if j < n {
      SelectionRunCount(Record(r, a, [i, j], ComparedIndices(i, j), Range(i)), a, i, j + 1, if a[j] < a[m] then j else m);
    } else if m != i {
      SelectionRunCount(Record(r, Swap(a, i, m), [i, m], SwappedWithMin(i, m), Range(i + 1)), Swap(a, i, m), i + 1, i + 2, i + 1);
    } else {
      SelectionRunCount(r, a, i + 1, i + 2, i + 1);
    }
  }

  // ------------------------------------------------------------ invariants of the run

  /** The comparisons recorded follow the pair schedule. */
  lemma {:induction false} ComparedNext(r: SortResult, a: seq<int>, i: nat, j: nat, m: nat)
    requires SelectionPos(|a|, i, j, m) && i < Passes(|a|)
    requires Compared(r.descriptions) == Pairs(|a|, i, j)
    ensures var s := SelectionNext(r, a, i, j, m);
            Compared(s.r.descriptions) == Pairs(|a|, s.i, s.j)
  {
    if j < |a| {
      ComparedAppend(r.descriptions, ComparedIndices(i, j));
    } else if m != i {
      ComparedAppend(r.descriptions, SwappedWithMin(i, m));
    }
  }

  lemma {:induction false} ComparedEnd(r: SortResult, a: seq<int>, i: nat, j: nat, m: nat)
    requires SelectionPos(|a|, i, j, m) && i == Passes(|a|)
    requires Compared(r.descriptions) == Pairs(|a|, i, j)
    ensures Compared(SelectionRun(r, a, i, j, m).descriptions) == AllPairs(|a|)
  {
    ComparedAppend(r.descriptions, FullySorted);
  }

  lemma {:induction false} SelectionRunCompared(r: SortResult, a: seq<int>, i: nat, j: nat, m: nat) returns (t: SortResult)
    requires SelectionPos(|a|, i, j, m)
    requires Compared(r.descriptions) == Pairs(|a|, i, j)
    ensures t == SelectionRun(r, a, i, j, m) && Compared(t.descriptions) == AllPairs(|a|)
    decreases Passes(|a|) - i, |a| - j
  {
    if i == Passes(|a|) {
      ComparedEnd(r, a, i, j, m);
      t := SelectionRun(r, a, i, j, m);
    } else {
      var s := SelectionRunNext(r, a, i, j, m);
      ComparedNext(r, a, i, j, m);
      t := SelectionRunCompared(s.r, s.a, s.i, s.j, s.m);
    }
  }

  /** Every snapshot keeps the input's length and values. */
  ghost predicate SnapshotsOf(r: SortResult, input: seq<int>, a: seq<int>) {
    |a| == |input| && multiset(a) == multiset(input) &&
    AllOfLength(r, |a|) && AllPermutations(r, input)
  }

  lemma {:induction false} SnapshotsNext(r: SortResult, input: seq<int>, a: seq<int>, i: nat, j: nat, m: nat)
    requires SelectionPos(|a|, i, j, m) && i < Passes(|a|) && SnapshotsOf(r, input, a)
    ensures var s := SelectionNext(r, a, i, j, m);
            SnapshotsOf(s.r, input, s.a)
  {
    if j >= |a| && m != i {
      SwapPermutes(a, i, m);
    }
  }

  lemma {:induction false} SelectionRunSnapshots(r: SortResult, input: seq<int>, a: seq<int>, i: nat, j: nat, m: nat) returns (t: SortResult)
    requires SelectionPos(|a|, i, j, m) && SnapshotsOf(r, input, a)
    ensures t == SelectionRun(r, a, i, j, m) && AllOfLength(t, |a|) && AllPermutations(t, input)
    decreases Passes(|a|) - i, |a| - j
  {
    if i == Passes(|a|) {
      t := SelectionRun(r, a, i, j, m);
    } else {
      var s := SelectionRunNext(r, a, i, j, m);
      SnapshotsNext(r, input, a, i, j, m);
      t := SelectionRunSnapshots(s.r, input, s.a, s.i, s.j, s.m);
    }
  }

  /** `m` is the first minimum of `a[i..j]`, and `a[j]` moves it exactly when smaller. */
  lemma {:induction false} FirstMinStep(a: seq<int>, i: int, j: int, m: int)
    requires 0 <= j < |a| && IsFirstMin(a[..j], i, m)
    ensures IsFirstMin(a[..j + 1], i, if a[j] < a[m] then j else m)
  {
  }

  /** While pass `i` runs, the last entry is comparison `(i, j - 1)`. */
  ghost predicate InPass(r: SortResult, a: seq<int>, i: nat, j: nat, m: nat) {
    var n := |a|;
    i < Passes(n) ==>
      j <= n && IsFirstMin(a[..j], i, m) &&
      (j > i + 1 ==> |r.descriptions| > 0 && r.descriptions[|r.descriptions| - 1] == ComparedIndices(i, j - 1))
  }

  /** Each entry after the first is a comparison or a first-minimum swap. */
  ghost predicate StepsSoFar(r: SortResult, a: seq<int>, i: nat, j: nat, m: nat) {
    SelectionSteps(r, |r.steps|, |a|) && |r.steps| > 0 && r.steps[|r.steps| - 1] == a &&
    InPass(r, a, i, j, m)
  }

  lemma {:induction false} StepsNext(r: SortResult, a: seq<int>, i: nat, j: nat, m: nat)
    requires SelectionPos(|a|, i, j, m) && i < Passes(|a|) && StepsSoFar(r, a, i, j, m)
    ensures var s := SelectionNext(r, a, i, j, m);
            StepsSoFar(s.r, s.a, s.i, s.j, s.m)
  {
    var n := |a|;
    if j < n {
      FirstMinStep(a, i, j, m);
      SelectionStepsAppend(r, a, [i, j], ComparedIndices(i, j), Range(i), n);
    } else if m != i {
      assert a[..j] == a;
      SelectionStepsAppend(r, Swap(a, i, m), [i, m], SwappedWithMin(i, m), Range(i + 1), n);
    }
  }

  lemma {:induction false} StepsEnd(r: SortResult, a: seq<int>, i: nat, j: nat, m: nat)
    requires SelectionPos(|a|, i, j, m) && i == Passes(|a|) && StepsSoFar(r, a, i, j, m)
    ensures var t := SelectionRun(r, a, i, j, m);
            SelectionSteps(t, |t.steps| - 1, |a|)
  {
    var n := |a|;
    var t := SelectionRun(r, a, i, j, m);
    forall k | 1 <= k < |t.steps| - 1 ensures SelectionStep(t, k, n) {
      assert SelectionStep(r, k, n);
      assert t.steps[k - 1] == r.steps[k - 1] && t.steps[k] == r.steps[k];
      assert t.descriptions[k - 1] == r.descriptions[k - 1] && t.descriptions[k] == r.descriptions[k];
      assert t.highlights[k] == r.highlights[k] && t.sortedIndices[k] == r.sortedIndices[k];
    }
  }

  lemma {:induction false} SelectionRunSteps(r: SortResult, a: seq<int>, i: nat, j: nat, m: nat) returns (t: SortResult)
    requires SelectionPos(|a|, i, j, m) && StepsSoFar(r, a, i, j, m)
    ensures t == SelectionRun(r, a, i, j, m) && SelectionSteps(t, |t.steps| - 1, |a|)
    decreases Passes(|a|) - i, |a| - j
  {
    if i == Passes(|a|) {
      StepsEnd(r, a, i, j, m);
      t := SelectionRun(r, a, i, j, m);
    } else {
      var s := SelectionRunNext(r, a, i, j, m);
      StepsNext(r, a, i, j, m);
      t := SelectionRunSteps(s.r, s.a, s.i, s.j, s.m);
    }
  }

  /** Appending an entry that is itself a valid step keeps all steps valid. */
  lemma {:induction false} SelectionStepsAppend(r: SortResult, s: seq<int>, h: seq<int>, d: Description, marks: seq<int>, n: int)
    requires SelectionSteps(r, |r.steps|, n) && |r.steps| > 0
    requires SelectionStep(Record(r, s, h, d, marks), |r.steps|, n)
    ensures SelectionSteps(Record(r, s, h, d, marks), |r.steps| + 1, n)
  {
    var r' := Record(r, s, h, d, marks);
    forall k | 1 <= k < |r.steps| ensures SelectionStep(r', k, n) {
      assert SelectionStep(r, k, n);
      assert r'.steps[k - 1] == r.steps[k - 1] && r'.steps[k] == r.steps[k];
      assert r'.descriptions[k - 1] == r.descriptions[k - 1] && r'.descriptions[k] == r.descriptions[k];
      assert r'.highlights[k] == r.highlights[k] && r'.sortedIndices[k] == r.sortedIndices[k];
    }
  }

  /** The last entry of `r` is a pass-closing comparison only if its
      successor is already settled by what comes next. */
  ghost predicate AtPassStart(r: SortResult, a: seq<int>, i: nat, j: nat) {
    |r.descriptions| > 0 &&
    ((i == Passes(|a|) || j == i + 1) ==>
      match r.descriptions[|r.descriptions| - 1]
      case ComparedIndices(x, y) => y == |a| - 1 ==> IsFirstMin(a, x, x)
      case _ => true)
  }

  /** Appending an entry keeps the earlier pass closures. */
  lemma {:induction false} ClosedAppend(r: SortResult, s: seq<int>, h: seq<int>, d: Description, marks: seq<int>, n: int)
    requires |r.descriptions| == |r.steps| > 0 && PassesClosed(r, |r.steps| - 1, n)
    requires PassClosed(Record(r, s, h, d, marks), |r.steps| - 1, n)
    ensures PassesClosed(Record(r, s, h, d, marks), |r.steps|, n)
  {
    var r' := Record(r, s, h, d, marks);
    forall k | 0 <= k < |r.steps| - 1 ensures PassClosed(r', k, n) {
      assert PassClosed(r, k, n);
      assert r'.descriptions[k] == r.descriptions[k] && r'.descriptions[k + 1] == r.descriptions[k + 1];
      assert r'.steps[k] == r.steps[k];
    }
  }

  /** A pass ends with a swap exactly when its first minimum is not already in place. */
  ghost predicate ClosedSoFar(r: SortResult, a: seq<int>, i: nat, j: nat, m: nat) {
    |r.descriptions| == |r.steps| > 0 && r.steps[|r.steps| - 1] == a &&
    PassesClosed(r, |r.steps| - 1, |a|) && InPass(r, a, i, j, m) && AtPassStart(r, a, i, j)
  }

  lemma {:induction false} ClosedNext(r: SortResult, a: seq<int>, i: nat, j: nat, m: nat)
    requires SelectionPos(|a|, i, j, m) && i < Passes(|a|) && ClosedSoFar(r, a, i, j, m)
    ensures var s := SelectionNext(r, a, i, j, m);
            ClosedSoFar(s.r, s.a, s.i, s.j, s.m)
  {
    var n := |a|;
    if j < n {
      FirstMinStep(a, i, j, m);
      ClosedAppend(r, a, [i, j], ComparedIndices(i, j), Range(i), n);
    } else if m != i {
      assert a[..j] == a;
      if IsFirstMin(a, i, i) {
        FirstMinUnique(a, i, i, m);
      }
      ClosedAppend(r, Swap(a, i, m), [i, m], SwappedWithMin(i, m), Range(i + 1), n);
    } else {
      assert a[..j] == a;
    }
  }

  lemma {:induction false} SelectionRunClosed(r: SortResult, a: seq<int>, i: nat, j: nat, m: nat) returns (t: SortResult)
    requires SelectionPos(|a|, i, j, m) && ClosedSoFar(r, a, i, j, m)
    ensures t == SelectionRun(r, a, i, j, m) && PassesClosed(t, |t.steps| - 1, |a|)
    decreases Passes(|a|) - i, |a| - j
  {
    if i == Passes(|a|) {
      ClosedAppend(r, a, [], FullySorted, Range(|a|), |a|);
      t := SelectionRun(r, a, i, j, m);
    } else {
      var s := SelectionRunNext(r, a, i, j, m);
      ClosedNext(r, a, i, j, m);
      t := SelectionRunClosed(s.r, s.a, s.i, s.j, s.m);
    }
  }

  /** Indices a pass lists as sorted already hold their final values. */
  lemma {:induction false} SelectionRunSettles(r: SortResult, a: seq<int>, i: nat, j: nat, m: nat)
    requires SelectionPos(|a|, i, j, m) && MarksAgree(r, a, 0, i)
    ensures Settled(SelectionRun(r, a, i, j, m))
    decreases Passes(|a|) - i, |a| - j
  {
    var n := |a|;
    if i == Passes(n) {
      MarksSettleAtClose(r, a, 0, i);
    } else if j < n {
      SelectionRunSettles(Record(r, a, [i, j], ComparedIndices(i, j), Range(i)), a, i, j + 1, if a[j] < a[m] then j else m);
    } else if m != i {
      SelectionRunSettles(Record(r, Swap(a, i, m), [i, m], SwappedWithMin(i, m), Range(i + 1)), Swap(a, i, m), i + 1, i + 2, i + 1);
    } else {
      SelectionRunSettles(r, a, i + 1, i + 2, i + 1);
    }
  }

  /** The closing snapshot is the array the run leaves behind. */
  lemma {:induction false} SelectionRunLast(r: SortResult, a: seq<int>, i: nat, j: nat, m: nat)
    requires SelectionPos(|a|, i, j, m)
    ensures var t := SelectionRun(r, a, i, j, m);
            |t.steps| > 0 && t.steps[|t.steps| - 1] == SelectionArray(a, i, j, m)
    decreases Passes(|a|) - i, |a| - j
  {
    var n := |a|;
    if i == Passes(n) {
    } else if j < n {
      SelectionRunLast(Record(r, a, [i, j], ComparedIndices(i, j), Range(i)), a, i, j + 1, if a[j] < a[m] then j else m);
    } else if m != i {
      SelectionRunLast(Record(r, Swap(a, i, m), [i, m], SwappedWithMin(i, m), Range(i + 1)), Swap(a, i, m), i + 1, i + 2, i + 1);
    } else {
      SelectionRunLast(r, a, i + 1, i + 2, i + 1);
    }
  }

  lemma {:induction false} SelectionArrayPermutes(a: seq<int>, i: nat, j: nat, m: nat)
    requires SelectionPos(|a|, i, j, m)
    ensures multiset(SelectionArray(a, i, j, m)) == multiset(a)
    decreases Passes(|a|) - i, |a| - j
  {
    var n := |a|;
    if i == Passes(n) {
    } else if j < n {
      SelectionArrayPermutes(a, i, j + 1, if a[j] < a[m] then j else m);
    } else if m != i {
      SwapPermutes(a, i, m);
      SelectionArrayPermutes(Swap(a, i, m), i + 1, i + 2, i + 1);
    } else {
      SelectionArrayPermutes(a, i + 1, i + 2, i + 1);
    }
  }

  /** Selection sort's order invariant: `a[..i]` is sorted and no larger than anything after it. */
  ghost predicate SelectionOrder(a: seq<int>, i: int) {
    0 <= i <= |a| &&
    (forall x, y :: 0 <= x < y < i ==> a[x] <= a[y]) &&
    (forall x, y :: 0 <= x < i <= y < |a| ==> a[x] <= a[y])
  }

  lemma {:induction false} SelectionOrderStep(a: seq<int>, i: int, m: int)
    requires SelectionOrder(a, i) && IsFirstMin(a, i, m)
    ensures SelectionOrder(Swap(a, i, m), i + 1) && (m == i ==> SelectionOrder(a, i + 1))
  {
  }

  lemma {:induction false} SelectionOrderDone(a: seq<int>)
    requires |a| > 0 && SelectionOrder(a, |a| - 1)
    ensures Sorted(a)
  {
  }

  /** Before the last pass is done, the array left behind is the one left
      behind from the next state. */
  lemma {:induction false} SelectionArrayNext(a: seq<int>, i: nat, j: nat, m: nat) returns (s: Sel)
    requires SelectionPos(|a|, i, j, m) && i < Passes(|a|)
    ensures s == SelectionNext(Initial(a), a, i, j, m)
    ensures SelectionArray(a, i, j, m) == SelectionArray(s.a, s.i, s.j, s.m)
  {
    s := SelectionNext(Initial(a), a, i, j, m);
  }

  /** The order invariant, with `m` the first minimum of what pass `i` has compared. */
  ghost predicate Selecting(a: seq<int>, i: nat, j: nat, m: nat) {
    SelectionOrder(a, i) && (i < Passes(|a|) ==> j <= |a| && IsFirstMin(a[..j], i, m))
  }

  lemma {:induction false} SelectingNext(a: seq<int>, i: nat, j: nat, m: nat)
    requires SelectionPos(|a|, i, j, m) && i < Passes(|a|) && Selecting(a, i, j, m)
    ensures var s := SelectionNext(Initial(a), a, i, j, m);
            Selecting(s.a, s.i, s.j, s.m)
  {
    if j < |a| {
      FirstMinStep(a, i, j, m);
    } else {
      assert a[..j] == a;
      SelectingPassEnd(a, i, m);
    }
  }

  /** Closing pass `i` puts its first minimum in place and opens pass `i + 1`. */
  lemma {:induction false} SelectingPassEnd(a: seq<int>, i: nat, m: nat)
    requires i < Passes(|a|) && SelectionOrder(a, i) && IsFirstMin(a, i, m)
    ensures var b := if m != i then Swap(a, i, m) else a;
            Selecting(b, i + 1, i + 2, i + 1)
  {
    var b := if m != i then Swap(a, i, m) else a;
    SelectionOrderStep(a, i, m);
    assert SelectionOrder(b, i + 1);
    if i + 1 < Passes(|a|) {
      assert IsFirstMin(b[..i + 2], i + 1, i + 1);
    }
  }

  lemma {:induction false} SelectionArraySorts(a: seq<int>, i: nat, j: nat, m: nat) returns (b: seq<int>)
    requires SelectionPos(|a|, i, j, m) && Selecting(a, i, j, m)
    ensures b == SelectionArray(a, i, j, m) && Sorted(b)
    decreases Passes(|a|) - i, |a| - j
  {
    if i == Passes(|a|) {
      if |a| > 0 {
        SelectionOrderDone(a);
      }
      b := a;
    } else {
      var s := SelectionArrayNext(a, i, j, m);
      SelectingNext(a, i, j, m);
      b := SelectionArraySorts(s.a, s.i, s.j, s.m);
    }
  }

  // ------------------------------------------------------------ the trace

  /** The trace opens with the input, closes with its ascending sort, and
      holds one entry per compared pair plus at most one swap per pass. */
  lemma {:induction false} SelectionSortEnds(input: seq<int>)
    ensures var t := SelectionSortTrace(input);
            var n := |input|;
            OpensWith(t, input) && ClosesWith(t, input) && Aligned(t) && |t.descriptions| == |t.steps| &&
            2 + n * (n - 1) / 2 <= |t.steps| <= 2 + n * (n - 1) / 2 + Passes(n)
  {
    var n := |input|;
    var r := Initial(input);
    var t := SelectionSortTrace(input);
    SelectionRunOpens(r, input, input, 0, 1, 0);
    SelectionRunShape(r, input, 0, 1, 0);
    SelectionRunCount(r, input, 0, 1, 0);
    SelectionRunLast(r, input, 0, 1, 0);
    var _ := SelectionArraySorts(input, 0, 1, 0);
    SelectionArrayPermutes(input, 0, 1, 0);
    SortedPermutationIsAscending(input, t.steps[|t.steps| - 1]);
    AllPairsExactly(n, 0, 0);
  }

  /** The comparison entries name the pairs `(i, j)`, `i < j`, in loop order. */
  lemma {:induction false} SelectionSortSchedule(input: seq<int>)
    ensures Compared(SelectionSortTrace(input).descriptions) == AllPairs(|input|)
  {
    var _ := SelectionRunCompared(Initial(input), input, 0, 1, 0);
  }

  /** Every snapshot is a permutation of the input; every entry between the
      first and the last is a comparison or a swap of the first minimum into
      place; and a pass ends with a swap exactly when its minimum is not
      already in place. */
  lemma {:induction false} SelectionSortMoves(input: seq<int>)
    ensures var t := SelectionSortTrace(input);
            AllOfLength(t, |input|) && AllPermutations(t, input) &&
            SelectionSteps(t, |t.steps| - 1, |input|) && PassesClosed(t, |t.steps| - 1, |input|)
  {
    var r := Initial(input);
    var _ := SelectionRunSnapshots(r, input, input, 0, 1, 0);
    var _ := SelectionRunSteps(r, input, 0, 1, 0);
    var _ := SelectionRunClosed(r, input, 0, 1, 0);
  }

  /** Every index the trace lists as sorted already holds its final value. */
  lemma {:induction false} SelectionSortSettled(input: seq<int>)
    ensures Settled(SelectionSortTrace(input))
  {
    SelectionRunSettles(Initial(input), input, 0, 1, 0);
  }

  method ComputeSelectionSortSteps(input: seq<int>) returns (r: SortResult)
    ensures r == SelectionSortTrace(input)
  {
    var n := |input|;
    var arr := new int[n](k requires 0 <= k < n => input[k]);
    assert arr[..] == input;
    r := Initial(arr[..]);
    var i := 0;
    while i < n - 1
      invariant 0 <= i <= Passes(n)
      invariant SelectionRun(r, arr[..], i, i + 1, i) == SelectionSortTrace(input)
    {
      var minIndex := i;
      var j := i + 1;
      while j < n
        invariant i < j <= n && i <= minIndex < j
        invariant SelectionRun(r, arr[..], i, j, minIndex) == SelectionSortTrace(input)
      {
        r := Record(r, arr[..], [i, j], ComparedIndices(i, j), Range(i));
        if arr[j] < arr[minIndex] {
          minIndex := j;
        }
        j := j + 1;
      }
      if minIndex != i {
        ghost var a := arr[..];
        arr[i], arr[minIndex] := arr[minIndex], arr[i];
        assert arr[..] == Swap(a, i, minIndex);
        r := Record(r, arr[..], [i, minIndex], SwappedWithMin(i, minIndex), Range(i + 1));
      }
      i := i + 1;
    }
    r := Record(r, arr[..], [], FullySorted, Range(n));
  }
}
