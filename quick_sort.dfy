/** `partition`, `quickSortRecursive` and `computeQuickSortSteps` of
    app/utils/SortingAlgorithms.tsx: Lomuto quicksort with the last element of
    each range as pivot, recording every comparison with the pivot, every swap
    of a smaller value into the left part, and the final move of the pivot. */
module QuickSort {
  import opened SortOrder
  import opened SortTrace

  /** What `partition` leaves behind: the trace, the array and the returned pivot index. */
  datatype Parted = Parted(r: SortResult, a: seq<int>, p: int)

  /** The state of `partition`'s loop: the trace so far, the array, and the
      end `i` of the part holding values below the pivot. */
  datatype Loop = Loop(r: SortResult, a: seq<int>, i: int)

  /** One pass of `partition`'s loop body at `j`: the comparison with the
      pivot, then, when `a[j]` is below it, the swap into the left part. */
  function PartitionStep(r: SortResult, a: seq<int>, high: int, pivot: int, i: int, j: int): (n: Loop)
    requires -1 <= i < j < high < |a|
    ensures |n.a| == |a| && (n.i == i || n.i == i + 1)
  {
    var r' := Record(r, a, [j, high], ComparingWithPivot(a[j], pivot), []);
    if a[j] < pivot then
      var a' := Swap(a, i + 1, j);
      Loop(Record(r', a', [i + 1, j], SwappedValues(a'[i + 1], a'[j]), []), a', i + 1)
    else
      Loop(r', a, i)
  }

  /** The rest of `partition`'s loop from `j`, then the pivot's move to `i + 1`. */
  function PartitionRun(r: SortResult, a: seq<int>, low: int, high: int, pivot: int, i: int, j: int): (s: Parted)
    requires 0 <= low <= j <= high < |a| && low - 1 <= i < j
    ensures |s.a| == |a| && i + 1 <= s.p <= high
    decreases high - j
  {
    if j == high then
      var a' := Swap(a, i + 1, high);
      Parted(Record(r, a', [i + 1, high], MovedPivot(i + 1), []), a', i + 1)
    else
      var n := PartitionStep(r, a, high, pivot, i, j);
      PartitionRun(n.r, n.a, low, high, pivot, n.i, j + 1)
  }

  /** `partition(arr, low, high, ...)` on trace `r` and array `a`. */
  function Partitioned(r: SortResult, a: seq<int>, low: int, high: int): (s: Parted)
    requires 0 <= low <= high < |a|
    ensures |s.a| == |a| && low <= s.p <= high
  {
    PartitionRun(Describe(r, PivotChosen(a[high], high)), a, low, high, a[high], low - 1, low)
  }

  /** `quickSortRecursive(arr, low, high, ...)` on trace `r` and array `a`:
      the trace and the array afterwards. */
  function QuickSortRun(r: SortResult, a: seq<int>, low: int, high: int): (s: (SortResult, seq<int>))
    requires 0 <= low <= high + 1 <= |a|
    ensures |s.1| == |a|
    decreases high - low
  {
    if low < high then
      var q := Partitioned(r, a, low, high);
      var left := QuickSortRun(q.r, q.a, low, q.p - 1);
      QuickSortRun(left.0, left.1, q.p + 1, high)
    else
      (r, a)
  }

  /** The trace `computeQuickSortSteps(input)` returns. */
  function QuickSortTrace(input: seq<int>): SortResult {
    var s := QuickSortRun(Initial(input), input, 0, |input| - 1);
    Record(s.0, s.1, [], FullySorted, Range(|input|))
  }

  // ------------------------------------------------------------ the array alone

  /** What `partition`'s loop from `j` does to the array, with the pivot's
      final index: the same swaps as `PartitionRun`, without the trace. */
  function PartitionArray(a: seq<int>, low: int, high: int, pivot: int, i: int, j: int): (s: (seq<int>, int))
    requires 0 <= low <= j <= high < |a| && low - 1 <= i < j
    ensures |s.0| == |a| && i + 1 <= s.1 <= high
    decreases high - j
  {
    if j == high then (Swap(a, i + 1, high), i + 1)
    else if a[j] < pivot then PartitionArray(Swap(a, i + 1, j), low, high, pivot, i + 1, j + 1)
    else PartitionArray(a, low, high, pivot, i, j + 1)
  }

  /** What `quickSortRecursive(arr, low, high, ...)` does to the array. */
  function QuickSortArray(a: seq<int>, low: int, high: int): (b: seq<int>)
    requires 0 <= low <= high + 1 <= |a|
    ensures |b| == |a|
    decreases high - low
  {
    if low < high then
      var q := PartitionArray(a, low, high, a[high], low - 1, low);
      QuickSortArray(QuickSortArray(q.0, low, q.1 - 1), q.1 + 1, high)
    else
      a
  }

  /** The traced partition moves the array exactly as `PartitionArray` does. */
  lemma {:induction false} PartitionRunArray(r: SortResult, a: seq<int>, low: int, high: int, pivot: int, i: int, j: int)
    requires 0 <= low <= j <= high < |a| && low - 1 <= i < j
    ensures var s := PartitionRun(r, a, low, high, pivot, i, j);
            (s.a, s.p) == PartitionArray(a, low, high, pivot, i, j)
    decreases high - j
  {
    if j < high {
      var n := PartitionStep(r, a, high, pivot, i, j);
      PartitionRunArray(n.r, n.a, low, high, pivot, n.i, j + 1);
    }
  }

  /** The traced recursion sorts the array exactly as `QuickSortArray` does. */
  lemma {:induction false} PartitionMovesArray(r: SortResult, a: seq<int>, low: int, high: int)
    requires 0 <= low <= high < |a|
    ensures var q := Partitioned(r, a, low, high);
            (q.a, q.p) == PartitionArray(a, low, high, a[high], low - 1, low)
  {
    PartitionRunArray(Describe(r, PivotChosen(a[high], high)), a, low, high, a[high], low - 1, low);
  }

  lemma {:induction false} QuickSortRunArray(r: SortResult, a: seq<int>, low: int, high: int) returns (t: (SortResult, seq<int>))
    requires 0 <= low <= high + 1 <= |a|
    ensures t == QuickSortRun(r, a, low, high) && t.1 == QuickSortArray(a, low, high)
    decreases high - low
  {
    if low < high {
      var q, left := QuickSortRunStep(r, a, low, high);
      var l := QuickSortRunArray(q.r, q.a, low, q.p - 1);
      t := QuickSortRunArray(left.0, left.1, q.p + 1, high);
      QuickSortLevel(r, a, low, high, q, l.1, t.1);
    } else {
      t := (r, a);
    }
  }

  /** One level of `QuickSortArray` on a range of two or more. */
  lemma {:induction false} QuickSortArrayStep(a: seq<int>, low: int, high: int, qa: seq<int>, p: int)
    requires 0 <= low < high < |a| && (qa, p) == PartitionArray(a, low, high, a[high], low - 1, low)
    ensures QuickSortArray(a, low, high) == QuickSortArray(QuickSortArray(qa, low, p - 1), p + 1, high)
  {
  }

  lemma {:induction false} QuickSortArrayJoin(a: seq<int>, low: int, high: int, qa: seq<int>, p: int, l: seq<int>, b: seq<int>)
    requires 0 <= low < high < |a| && (qa, p) == PartitionArray(a, low, high, a[high], low - 1, low)
    requires l == QuickSortArray(qa, low, p - 1) && b == QuickSortArray(l, p + 1, high)
    ensures b == QuickSortArray(a, low, high)
  {
    QuickSortArrayStep(a, low, high, qa, p);
  }

  /** One level of the traced recursion moves the array as one level of `QuickSortArray`. */
  lemma {:induction false} QuickSortLevel(r: SortResult, a: seq<int>, low: int, high: int, q: Parted, l: seq<int>, b: seq<int>)
    requires 0 <= low < high < |a| && q == Partitioned(r, a, low, high)
    requires l == QuickSortArray(q.a, low, q.p - 1) && b == QuickSortArray(l, q.p + 1, high)
    ensures b == QuickSortArray(a, low, high)
  {
    PartitionMovesArray(r, a, low, high);
    QuickSortArrayJoin(a, low, high, q.a, q.p, l, b);
  }

  // ------------------------------------------------------------ partition

  /** Lomuto's invariant: `a[low..i]` is below the pivot and `a(i..j)` is not. */
  ghost predicate Lomuto(a: seq<int>, low: int, high: int, pivot: int, i: int, j: int) {
    0 <= low <= j <= high < |a| && low - 1 <= i < j && a[high] == pivot &&
    (forall k :: low <= k <= i ==> a[k] < pivot) &&
    (forall k :: i < k < j ==> a[k] >= pivot)
  }

  /** `partition` leaves the pivot at the returned index, smaller values left
      of it and the others right of it. */
  lemma {:induction false} PartitionArraySplits(a: seq<int>, low: int, high: int, pivot: int, i: int, j: int)
    requires Lomuto(a, low, high, pivot, i, j)
    ensures var s := PartitionArray(a, low, high, pivot, i, j);
            s.0[s.1] == pivot &&
            (forall k :: low <= k < s.1 ==> s.0[k] < pivot) &&
            (forall k :: s.1 < k <= high ==> s.0[k] >= pivot)
    decreases high - j
  {
    if j < high {
      if a[j] < pivot {
        PartitionArraySplits(Swap(a, i + 1, j), low, high, pivot, i + 1, j + 1);
      } else {
        PartitionArraySplits(a, low, high, pivot, i, j + 1);
      }
    }
  }

  /** Exchanging two entries of `[lo, hi]` rearranges `[lo, hi]`. */
  lemma {:induction false} SwapRearranges(a: seq<int>, i: int, j: int, lo: int, hi: int)
    requires 0 <= lo <= i <= hi < |a| && lo <= j <= hi
    ensures Rearranged(a, Swap(a, i, j), lo, hi)
  {
    SwapPermutes(a, i, j);
  }

  lemma {:induction false} SwapThenRearranged(a: seq<int>, i: int, j: int, lo: int, hi: int, b: seq<int>)
    requires 0 <= lo <= i <= hi < |a| && lo <= j <= hi && Rearranged(Swap(a, i, j), b, lo, hi)
    ensures Rearranged(a, b, lo, hi)
  {
    SwapRearranges(a, i, j, lo, hi);
    RearrangedChain(a, Swap(a, i, j), b, lo, hi, lo, hi, lo, hi);
  }

  /** `partition` only exchanges values inside `[low, high]`. */
  lemma {:induction false} PartitionArrayKeeps(a: seq<int>, low: int, high: int, pivot: int, i: int, j: int)
    requires 0 <= low <= j <= high < |a| && low - 1 <= i < j
    ensures Rearranged(a, PartitionArray(a, low, high, pivot, i, j).0, low, high)
    decreases high - j
  {
    if j == high {
      SwapRearranges(a, i + 1, high, low, high);
    } else if a[j] < pivot {
      var a' := Swap(a, i + 1, j);
      PartitionArrayKeeps(a', low, high, pivot, i + 1, j + 1);
      SwapThenRearranged(a, i + 1, j, low, high, PartitionArray(a', low, high, pivot, i + 1, j + 1).0);
    } else {
      PartitionArrayKeeps(a, low, high, pivot, i, j + 1);
    }
  }

  /** `partition` appends one entry per comparison, one per swap (which moves
      the left part's end `i` on by one) and one for the pivot, with empty
      sorted marks, and no description without a snapshot. */
  lemma {:induction false} PartitionRunCount(r: SortResult, a: seq<int>, low: int, high: int, pivot: int, i: int, j: int)
    requires 0 <= low <= j <= high < |a| && low - 1 <= i < j && Aligned(r)
    ensures var s := PartitionRun(r, a, low, high, pivot, i, j);
            Aligned(s.r) &&
            |s.r.steps| == |r.steps| + (high - j) + (s.p - 1 - i) + 1 &&
            |s.r.descriptions| == |r.descriptions| + (high - j) + (s.p - 1 - i) + 1
    decreases high - j
  {
    if j < high {
      var n := PartitionStep(r, a, high, pivot, i, j);
      PartitionRunCount(n.r, n.a, low, high, pivot, n.i, j + 1);
    }
  }

  lemma {:induction false} PartitionSplits(a: seq<int>, low: int, high: int)
    requires 0 <= low <= high < |a|
    ensures var s := PartitionArray(a, low, high, a[high], low - 1, low);
            Split(s.0, low, s.1, high, a[high]) && Rearranged(a, s.0, low, high)
  {
    PartitionArraySplits(a, low, high, a[high], low - 1, low);
    PartitionArrayKeeps(a, low, high, a[high], low - 1, low);
  }

  /** `partition(low, high)` appends `high - low` comparison entries, one
      swap entry for each of the `p - low` values found below the pivot, and
      the pivot entry; `descriptions` gets one more ("Pivot chosen"). */
  lemma {:induction false} PartitionCount(r: SortResult, a: seq<int>, low: int, high: int)
    requires 0 <= low <= high < |a| && Aligned(r)
    ensures var s := Partitioned(r, a, low, high);
            Aligned(s.r) &&
            |s.r.steps| == |r.steps| + (high - low) + (s.p - low) + 1 &&
            |s.r.descriptions| == |r.descriptions| + (high - low) + (s.p - low) + 2
  {
    PartitionRunCount(Describe(r, PivotChosen(a[high], high)), a, low, high, a[high], low - 1, low);
  }

  // ------------------------------------------------------------ the recursion

  /** `b` holds the values of `a`, moved around inside `[lo, hi]` only. */
  ghost predicate Rearranged(a: seq<int>, b: seq<int>, lo: int, hi: int) {
    |b| == |a| && multiset(b) == multiset(a) &&
    forall k :: 0 <= k < |a| && (k < lo || hi < k) ==> b[k] == a[k]
  }

  /** `a[lo..hi]` is ascending. */
  ghost predicate SortedOn(a: seq<int>, lo: int, hi: int) {
    forall x, y :: lo <= x < y <= hi && 0 <= x && y < |a| ==> a[x] <= a[y]
  }

  /** The pivot `pivot` sits at `p`, with smaller values in `[low, p)` and the
      others in `(p, high]`. */
  ghost predicate Split(a: seq<int>, low: int, p: int, high: int, pivot: int) {
    0 <= low <= p <= high < |a| && a[p] == pivot &&
    (forall k :: low <= k < p ==> a[k] < pivot) &&
    (forall k :: p < k <= high ==> a[k] >= pivot)
  }

  lemma {:induction false} RearrangedChain(a: seq<int>, b: seq<int>, c: seq<int>, lo: int, hi: int, lo1: int, hi1: int, lo2: int, hi2: int)
    requires Rearranged(a, b, lo1, hi1) && Rearranged(b, c, lo2, hi2)
    requires lo <= lo1 && lo <= lo2 && hi1 <= hi && hi2 <= hi
    ensures Rearranged(a, c, lo, hi)
  {
  }

  /** When `b` only rearranges `a` inside `[lo, hi]`, the slice `b[lo..hi+1]`
      holds the values of `a[lo..hi+1]`. */
  lemma {:induction false} SegmentPermutes(a: seq<int>, b: seq<int>, lo: int, hi: int)
    requires 0 <= lo <= hi + 1 <= |a| && Rearranged(a, b, lo, hi)
    ensures multiset(b[lo..hi + 1]) == multiset(a[lo..hi + 1])
  {
    var h := hi + 1;
    assert b[..lo] == a[..lo];
    assert b[h..] == a[h..];
    ThreeParts(a, lo, h);
    ThreeParts(b, lo, h);
    Cancel(multiset(a[..lo]), multiset(b[lo..h]), multiset(a[lo..h]), multiset(a[h..]));
  }

  lemma {:induction false} ThreeParts(s: seq<int>, lo: int, h: int)
    requires 0 <= lo <= h <= |s|
    ensures multiset(s) == multiset(s[..lo]) + multiset(s[lo..h]) + multiset(s[h..])
  {
    assert s == s[..lo] + s[lo..h] + s[h..];
  }

  lemma {:induction false} Cancel(x: multiset<int>, m: multiset<int>, n: multiset<int>, y: multiset<int>)
    requires x + m + y == x + n + y
    ensures m == n
  {
    forall v ensures m[v] == n[v] {
      assert (x + m + y)[v] == (x + n + y)[v];
    }
  }

  /** Rearranging one side of the pivot keeps the split. */
  lemma {:induction false} SplitKept(a: seq<int>, b: seq<int>, low: int, p: int, high: int, pivot: int, lo: int, hi: int)
    requires Split(a, low, p, high, pivot) && Rearranged(a, b, lo, hi)
    requires (lo == low && hi == p - 1) || (lo == p + 1 && hi == high)
    ensures Split(b, low, p, high, pivot)
  {
    SegmentPermutes(a, b, lo, hi);
    forall k | lo <= k <= hi ensures exists m :: lo <= m <= hi && b[k] == a[m] {
      assert b[k] == b[lo..hi + 1][k - lo];
      assert b[k] in multiset(a[lo..hi + 1]);
      var t :| 0 <= t < hi + 1 - lo && a[lo..hi + 1][t] == b[k];
      assert a[lo + t] == b[k];
    }
  }

  /** Rearranging a range leaves the order of a disjoint range alone. */
  lemma {:induction false} SortedKept(a: seq<int>, b: seq<int>, lo: int, hi: int, lo': int, hi': int)
    requires SortedOn(a, lo', hi') && Rearranged(a, b, lo, hi) && (hi < lo' || hi' < lo)
    ensures SortedOn(b, lo', hi')
  {
    forall x, y | lo' <= x < y <= hi' && 0 <= x && y < |b| ensures b[x] <= b[y] {
      assert b[x] == a[x] && b[y] == a[y];
    }
  }

  /** Both sides of a split in order: the whole range is in order. */
  lemma {:induction false} SplitSorted(b: seq<int>, low: int, p: int, high: int, pivot: int)
    requires Split(b, low, p, high, pivot) && SortedOn(b, low, p - 1) && SortedOn(b, p + 1, high)
    ensures SortedOn(b, low, high)
  {
  }

  /** One level of `quickSortRecursive` on a range of two or more: the
      partition, then the left part, then the right part. */
  lemma {:induction false} QuickSortRunStep(r: SortResult, a: seq<int>, low: int, high: int) returns (q: Parted, left: (SortResult, seq<int>))
    requires 0 <= low < high < |a|
    ensures q == Partitioned(r, a, low, high) && low <= q.p <= high && |q.a| == |a|
    ensures q == PartitionRun(Describe(r, PivotChosen(a[high], high)), a, low, high, a[high], low - 1, low)
    ensures left == QuickSortRun(q.r, q.a, low, q.p - 1) && |left.1| == |a|
    ensures QuickSortRun(r, a, low, high) == QuickSortRun(left.0, left.1, q.p + 1, high)
  {
    q := Partitioned(r, a, low, high);
    left := QuickSortRun(q.r, q.a, low, q.p - 1);
  }

  /** `b` holds the values of `a`, moved around inside `[lo, hi]` only, and
      `b[lo..hi]` is ascending. */
  ghost predicate SortsRange(a: seq<int>, b: seq<int>, lo: int, hi: int) {
    Rearranged(a, b, lo, hi) && SortedOn(b, lo, hi)
  }

  /** Partitioning `[low, high]` into `q`, then sorting the part left of the
      pivot into `la` and the part right of it into `ra`, sorts `[low, high]`. */
  lemma {:induction false} SortsJoin(a: seq<int>, low: int, high: int, q: (seq<int>, int), la: seq<int>, ra: seq<int>)
    requires 0 <= low < high < |a| && q == PartitionArray(a, low, high, a[high], low - 1, low)
    requires SortsRange(q.0, la, low, q.1 - 1) && SortsRange(la, ra, q.1 + 1, high)
    ensures SortsRange(a, ra, low, high)
  {
    PartitionSplits(a, low, high);
    SortsCombine(a, q.0, la, ra, low, q.1, high, a[high]);
  }

  /** A split of `[low, high]` around `pivot` at `p`, followed by sorting its
      two sides in place, sorts `[low, high]`. */
  lemma {:induction false} SortsCombine(a: seq<int>, qa: seq<int>, la: seq<int>, ra: seq<int>, low: int, p: int, high: int, pivot: int)
    requires Split(qa, low, p, high, pivot) && Rearranged(a, qa, low, high)
    requires SortsRange(qa, la, low, p - 1) && SortsRange(la, ra, p + 1, high)
    ensures SortsRange(a, ra, low, high)
  {
    RearrangedChain(qa, la, ra, low, high, low, p - 1, p + 1, high);
    RearrangedChain(a, qa, ra, low, high, low, high, low, high);
    SplitKept(qa, la, low, p, high, pivot, low, p - 1);
    SplitKept(la, ra, low, p, high, pivot, p + 1, high);
    SortedKept(la, ra, p + 1, high, low, p - 1);
    SplitSorted(ra, low, p, high, pivot);
  }

  /** `quickSortRecursive` only rearranges the values of `[low, high]`, and
      leaves them in ascending order. */
  lemma {:induction false} QuickSortArraySorts(a: seq<int>, low: int, high: int)
    requires 0 <= low <= high + 1 <= |a|
    ensures SortsRange(a, QuickSortArray(a, low, high), low, high)
    decreases high - low
  {
    if low < high {
      var q := PartitionArray(a, low, high, a[high], low - 1, low);
      var left := QuickSortArray(q.0, low, q.1 - 1);
      QuickSortArraySorts(q.0, low, q.1 - 1);
      QuickSortArraySorts(left, q.1 + 1, high);
      SortsJoin(a, low, high, q, left, QuickSortArray(left, q.1 + 1, high));
      QuickSortArrayStep(a, low, high, q.0, q.1);
    }
  }

  // ------------------------------------------------------------ the entries

  /** Entry `cur` (highlight `h`, description `d`) follows `prev`, whose own
      description was `before`: a comparison with the pivot, a swap that
      follows a comparison finding a smaller value, or the pivot's move. */
  predicate QuickMove(prev: seq<int>, cur: seq<int>, h: seq<int>, d: Description, before: Description) {
    match d
    case ComparingWithPivot(v, pv) =>
      |h| == 2 && 0 <= h[0] < h[1] < |prev| && cur == prev && v == prev[h[0]] && pv == prev[h[1]]
    case SwappedValues(x, y) =>
      |h| == 2 && 0 <= h[0] <= h[1] < |prev| && cur == Swap(prev, h[0], h[1]) &&
      x == cur[h[0]] && y == cur[h[1]] &&
      before.ComparingWithPivot? && x == before.value && before.value < before.pivot
    case MovedPivot(p) =>
      |h| == 2 && h[0] == p && 0 <= p <= h[1] < |prev| && cur == Swap(prev, p, h[1])
    case _ => false
  }

  /** Entries 1 up to (not including) `upTo` are quicksort moves, `u` being
      the descriptions that have a snapshot. */
  predicate QuickMoves(r: SortResult, u: seq<Description>, upTo: int) {
    Aligned(r) && |u| == |r.steps| && upTo <= |r.steps| &&
    forall k :: 1 <= k < upTo ==> MoveAt(r, u, k)
  }

  /** Entry `k` is a quicksort move from entry `k - 1`. */
  predicate MoveAt(r: SortResult, u: seq<Description>, k: int) {
    Aligned(r) && |u| == |r.steps| && 1 <= k < |r.steps| &&
    QuickMove(r.steps[k - 1], r.steps[k], r.highlights[k], u[k], u[k - 1])
  }

  /** A comparison is followed by a swap exactly when it found a value below the pivot. */
  predicate ComparisonsClosed(u: seq<Description>, upTo: int) {
    upTo <= |u| && forall k :: 0 <= k < upTo - 1 ==> ClosedAt(u, k)
  }

  /** If entry `k` is a comparison, entry `k + 1` is a swap exactly when the
      compared value is below the pivot. */
  predicate ClosedAt(u: seq<Description>, k: int) {
    0 <= k < |u| - 1 &&
    (u[k].ComparingWithPivot? ==> (u[k + 1].SwappedValues? <==> u[k].value < u[k].pivot))
  }

  /** Nothing but the closing entry lists an index as sorted. */
  predicate NoMarks(r: SortResult) {
    Aligned(r) && forall k :: 0 <= k < |r.steps| ==> r.sortedIndices[k] == []
  }

  lemma {:induction false} PartitionRunOpens(r: SortResult, input: seq<int>, a: seq<int>, low: int, high: int, pivot: int, i: int, j: int)
    requires 0 <= low <= j <= high < |a| && low - 1 <= i < j && OpensWith(r, input)
    ensures OpensWith(PartitionRun(r, a, low, high, pivot, i, j).r, input)
    decreases high - j
  {
    if j < high {
      var n := PartitionStep(r, a, high, pivot, i, j);
      PartitionRunOpens(n.r, input, n.a, low, high, pivot, n.i, j + 1);
    }
  }

  lemma {:induction false} PartitionOpens(r: SortResult, input: seq<int>, a: seq<int>, low: int, high: int)
    requires 0 <= low <= high < |a| && OpensWith(r, input)
    ensures OpensWith(Partitioned(r, a, low, high).r, input)
  {
    PartitionRunOpens(Describe(r, PivotChosen(a[high], high)), input, a, low, high, a[high], low - 1, low);
  }

  lemma {:induction false} QuickSortRunOpens(r: SortResult, input: seq<int>, a: seq<int>, low: int, high: int) returns (t: (SortResult, seq<int>))
    requires 0 <= low <= high + 1 <= |a| && OpensWith(r, input)
    ensures t == QuickSortRun(r, a, low, high) && OpensWith(t.0, input)
    decreases high - low
  {
    if low < high {
      var q, left := QuickSortRunStep(r, a, low, high);
      PartitionOpens(r, input, a, low, high);
      var _ := QuickSortRunOpens(q.r, input, q.a, low, q.p - 1);
      t := QuickSortRunOpens(left.0, input, left.1, q.p + 1, high);
    } else {
      t := (r, a);
    }
  }

  lemma {:induction false} MarksRecord(r: SortResult, s: seq<int>, h: seq<int>, d: Description)
    requires NoMarks(r)
    ensures NoMarks(Record(r, s, h, d, []))
  {
    var r' := Record(r, s, h, d, []);
    forall k | 0 <= k < |r'.steps| ensures r'.sortedIndices[k] == [] {
      if k < |r.steps| {
        assert r'.sortedIndices[k] == r.sortedIndices[k];
      }
    }
  }

  lemma {:induction false} MarksStep(r: SortResult, a: seq<int>, high: int, pivot: int, i: int, j: int)
    requires -1 <= i < j < high < |a| && NoMarks(r)
    ensures NoMarks(PartitionStep(r, a, high, pivot, i, j).r)
  {
    var r' := Record(r, a, [j, high], ComparingWithPivot(a[j], pivot), []);
    MarksRecord(r, a, [j, high], ComparingWithPivot(a[j], pivot));
    if a[j] < pivot {
      var a' := Swap(a, i + 1, j);
      MarksRecord(r', a', [i + 1, j], SwappedValues(a'[i + 1], a'[j]));
    }
  }

  lemma {:induction false} PartitionRunMarks(r: SortResult, a: seq<int>, low: int, high: int, pivot: int, i: int, j: int)
    requires 0 <= low <= j <= high < |a| && low - 1 <= i < j && NoMarks(r)
    ensures NoMarks(PartitionRun(r, a, low, high, pivot, i, j).r)
    decreases high - j
  {
    if j == high {
      MarksRecord(r, Swap(a, i + 1, high), [i + 1, high], MovedPivot(i + 1));
    } else {
      var n := PartitionStep(r, a, high, pivot, i, j);
      MarksStep(r, a, high, pivot, i, j);
      PartitionRunMarks(n.r, n.a, low, high, pivot, n.i, j + 1);
    }
  }

  lemma {:induction false} PartitionMarks(r: SortResult, a: seq<int>, low: int, high: int)
    requires 0 <= low <= high < |a| && NoMarks(r)
    ensures NoMarks(Partitioned(r, a, low, high).r)
  {
    PartitionRunMarks(Describe(r, PivotChosen(a[high], high)), a, low, high, a[high], low - 1, low);
  }

  lemma {:induction false} QuickSortRunMarks(r: SortResult, a: seq<int>, low: int, high: int) returns (t: (SortResult, seq<int>))
    requires 0 <= low <= high + 1 <= |a| && NoMarks(r)
    ensures t == QuickSortRun(r, a, low, high) && NoMarks(t.0)
    decreases high - low
  {
    if low < high {
      var q, left := QuickSortRunStep(r, a, low, high);
      PartitionMarks(r, a, low, high);
      var _ := QuickSortRunMarks(q.r, q.a, low, q.p - 1);
      t := QuickSortRunMarks(left.0, left.1, q.p + 1, high);
    } else {
      t := (r, a);
    }
  }

  lemma {:induction false} QuickMoveRecorded(r: SortResult, u: seq<Description>, s: seq<int>, h: seq<int>, d: Description, marks: seq<int>)
    requires QuickMoves(r, u, |r.steps|) && u == Snapshotted(r.descriptions) && |r.steps| > 0
    requires QuickMove(r.steps[|r.steps| - 1], s, h, d, u[|u| - 1]) && !d.PivotChosen? && !d.PickedElement?
    ensures var r' := Record(r, s, h, d, marks);
            QuickMoves(r', u + [d], |r'.steps|) && u + [d] == Snapshotted(r'.descriptions)
  {
    var r' := Record(r, s, h, d, marks);
    SnapshottedAppend(r.descriptions, d);
    forall k | 1 <= k < |r'.steps| ensures MoveAt(r', u + [d], k) {
      if k < |r.steps| {
        assert MoveAt(r, u, k);
      }
    }
  }

  /** A description pushed alone leaves the moves as they are. */
  lemma {:induction false} MovesDescribed(r: SortResult, u: seq<Description>, d: Description)
    requires QuickMoves(r, u, |r.steps|)
    ensures QuickMoves(Describe(r, d), u, |r.steps|)
  {
    forall k | 1 <= k < |r.steps| ensures MoveAt(Describe(r, d), u, k) {
      assert MoveAt(r, u, k);
    }
  }

  /** The entries after the first are quicksort moves and the last snapshot is `a`. */
  predicate Moving(r: SortResult, a: seq<int>) {
    QuickMoves(r, Snapshotted(r.descriptions), |r.steps|) && |r.steps| > 0 && r.steps[|r.steps| - 1] == a
  }

  /** A pass of the loop body appends a comparison with the pivot and, when
      it found a smaller value, the swap that follows it. */
  lemma {:induction false} MovesStep(r: SortResult, a: seq<int>, high: int, pivot: int, i: int, j: int)
    requires -1 <= i < j < high < |a| && a[high] == pivot && Moving(r, a)
    ensures var n := PartitionStep(r, a, high, pivot, i, j);
            Moving(n.r, n.a) && n.a[high] == pivot
  {
    var u := Snapshotted(r.descriptions);
    var d := ComparingWithPivot(a[j], pivot);
    var r' := Record(r, a, [j, high], d, []);
    assert QuickMove(a, a, [j, high], d, u[|u| - 1]);
    QuickMoveRecorded(r, u, a, [j, high], d, []);
    if a[j] < pivot {
      var a' := Swap(a, i + 1, j);
      var d' := SwappedValues(a'[i + 1], a'[j]);
      assert QuickMove(a, a', [i + 1, j], d', d);
      QuickMoveRecorded(r', u + [d], a', [i + 1, j], d', []);
    }
  }

  /** Every entry `partition` appends is a comparison, a swap after a
      comparison that found a smaller value, or the pivot's move. */
  lemma {:induction false} PartitionRunMoves(r: SortResult, a: seq<int>, low: int, high: int, pivot: int, i: int, j: int)
    requires 0 <= low <= j <= high < |a| && low - 1 <= i < j && a[high] == pivot && Moving(r, a)
    ensures var s := PartitionRun(r, a, low, high, pivot, i, j);
            Moving(s.r, s.a)
    decreases high - j
  {
    if j == high {
      var u := Snapshotted(r.descriptions);
      var a' := Swap(a, i + 1, high);
      assert QuickMove(a, a', [i + 1, high], MovedPivot(i + 1), u[|u| - 1]);
      QuickMoveRecorded(r, u, a', [i + 1, high], MovedPivot(i + 1), []);
    } else {
      var n := PartitionStep(r, a, high, pivot, i, j);
      MovesStep(r, a, high, pivot, i, j);
      PartitionRunMoves(n.r, n.a, low, high, pivot, n.i, j + 1);
    }
  }

  /** `partition(low, high)` appends the "Pivot chosen" description, then
      only quicksort moves. */
  lemma {:induction false} PartitionMoves(r: SortResult, a: seq<int>, low: int, high: int)
    requires 0 <= low <= high < |a| && Moving(r, a)
    ensures var q := Partitioned(r, a, low, high); Moving(q.r, q.a)
  {
    SnapshottedAppend(r.descriptions, PivotChosen(a[high], high));
    MovesDescribed(r, Snapshotted(r.descriptions), PivotChosen(a[high], high));
    PartitionRunMoves(Describe(r, PivotChosen(a[high], high)), a, low, high, a[high], low - 1, low);
  }

  lemma {:induction false} QuickSortRunMoves(r: SortResult, a: seq<int>, low: int, high: int) returns (t: (SortResult, seq<int>))
    requires 0 <= low <= high + 1 <= |a| && Moving(r, a)
    ensures t == QuickSortRun(r, a, low, high) && Moving(t.0, t.1)
    decreases high - low
  {
    if low < high {
      var q, left := QuickSortRunStep(r, a, low, high);
      PartitionMoves(r, a, low, high);
      var _ := QuickSortRunMoves(q.r, q.a, low, q.p - 1);
      t := QuickSortRunMoves(left.0, left.1, q.p + 1, high);
    } else {
      t := (r, a);
    }
  }

  /** The last description so far is not a comparison still waiting for its swap. */
  predicate Pending(u: seq<Description>) {
    |u| > 0 && (u[|u| - 1].ComparingWithPivot? ==> u[|u| - 1].value >= u[|u| - 1].pivot)
  }

  lemma {:induction false} ClosedAppend(u: seq<Description>, d: Description)
    requires ComparisonsClosed(u, |u|) && |u| > 0
    requires u[|u| - 1].ComparingWithPivot? ==> (d.SwappedValues? <==> u[|u| - 1].value < u[|u| - 1].pivot)
    ensures ComparisonsClosed(u + [d], |u| + 1)
  {
    var u' := u + [d];
    forall k | 0 <= k < |u| ensures ClosedAt(u', k) {
      if k < |u| - 1 {
        assert ClosedAt(u, k);
      }
    }
  }

  /** The comparisons recorded so far are each followed by a swap exactly when
      they found a smaller value, and the last one is not waiting for its swap. */
  ghost predicate Closes(r: SortResult) {
    var u := Snapshotted(r.descriptions);
    ComparisonsClosed(u, |u|) && Pending(u)
  }

  lemma {:induction false} ClosesStep(r: SortResult, a: seq<int>, high: int, pivot: int, i: int, j: int)
    requires -1 <= i < j < high < |a| && Closes(r)
    ensures Closes(PartitionStep(r, a, high, pivot, i, j).r)
  {
    var u := Snapshotted(r.descriptions);
    var d := ComparingWithPivot(a[j], pivot);
    var r' := Record(r, a, [j, high], d, []);
    SnapshottedAppend(r.descriptions, d);
    ClosedAppend(u, d);
    if a[j] < pivot {
      var a' := Swap(a, i + 1, j);
      var d' := SwappedValues(a'[i + 1], a'[j]);
      SnapshottedAppend(r'.descriptions, d');
      ClosedAppend(u + [d], d');
    }
  }

  lemma {:induction false} PartitionRunClosed(r: SortResult, a: seq<int>, low: int, high: int, pivot: int, i: int, j: int)
    requires 0 <= low <= j <= high < |a| && low - 1 <= i < j && Closes(r)
    ensures Closes(PartitionRun(r, a, low, high, pivot, i, j).r)
    decreases high - j
  {
    if j == high {
      SnapshottedAppend(r.descriptions, MovedPivot(i + 1));
      ClosedAppend(Snapshotted(r.descriptions), MovedPivot(i + 1));
    } else {
      var n := PartitionStep(r, a, high, pivot, i, j);
      ClosesStep(r, a, high, pivot, i, j);
      PartitionRunClosed(n.r, n.a, low, high, pivot, n.i, j + 1);
    }
  }

  lemma {:induction false} PartitionCloses(r: SortResult, a: seq<int>, low: int, high: int)
    requires 0 <= low <= high < |a| && Closes(r)
    ensures Closes(Partitioned(r, a, low, high).r)
  {
    SnapshottedAppend(r.descriptions, PivotChosen(a[high], high));
    PartitionRunClosed(Describe(r, PivotChosen(a[high], high)), a, low, high, a[high], low - 1, low);
  }

  lemma {:induction false} QuickSortRunClosed(r: SortResult, a: seq<int>, low: int, high: int) returns (t: (SortResult, seq<int>))
    requires 0 <= low <= high + 1 <= |a| && Closes(r)
    ensures t == QuickSortRun(r, a, low, high) && Closes(t.0)
    decreases high - low
  {
    if low < high {
      var q, left := QuickSortRunStep(r, a, low, high);
      PartitionCloses(r, a, low, high);
      var _ := QuickSortRunClosed(q.r, q.a, low, q.p - 1);
      t := QuickSortRunClosed(left.0, left.1, q.p + 1, high);
    } else {
      t := (r, a);
    }
  }

  /** Every snapshot has the input's length and values. */
  ghost predicate Permuting(r: SortResult, input: seq<int>) {
    AllOfLength(r, |input|) && AllPermutations(r, input)
  }

  lemma {:induction false} SnapshotsStep(r: SortResult, input: seq<int>, a: seq<int>, high: int, pivot: int, i: int, j: int)
    requires -1 <= i < j < high < |a| && |a| == |input| && multiset(a) == multiset(input) && Permuting(r, input)
    ensures var n := PartitionStep(r, a, high, pivot, i, j);
            Permuting(n.r, input) && multiset(n.a) == multiset(input)
  {
    var d := ComparingWithPivot(a[j], pivot);
    var r' := Record(r, a, [j, high], d, []);
    SnapshotRecorded(r, input, a, [j, high], d, []);
    if a[j] < pivot {
      var a' := Swap(a, i + 1, j);
      SwapPermutes(a, i + 1, j);
      SnapshotRecorded(r', input, a', [i + 1, j], SwappedValues(a'[i + 1], a'[j]), []);
    }
  }

  lemma {:induction false} SnapshotsEnd(r: SortResult, input: seq<int>, a: seq<int>, low: int, high: int, pivot: int, i: int)
    requires 0 <= low <= high < |a| && low - 1 <= i < high
    requires |a| == |input| && multiset(a) == multiset(input) && Permuting(r, input)
    ensures Permuting(PartitionRun(r, a, low, high, pivot, i, high).r, input)
  {
    SwapPermutes(a, i + 1, high);
    SnapshotRecorded(r, input, Swap(a, i + 1, high), [i + 1, high], MovedPivot(i + 1), []);
  }

  /** Every snapshot keeps the input's length and values. */
  lemma {:induction false} PartitionRunSnapshots(r: SortResult, input: seq<int>, a: seq<int>, low: int, high: int, pivot: int, i: int, j: int)
    requires 0 <= low <= j <= high < |a| && low - 1 <= i < j
    requires |a| == |input| && multiset(a) == multiset(input) && Permuting(r, input)
    ensures Permuting(PartitionRun(r, a, low, high, pivot, i, j).r, input)
    decreases high - j
  {
    if j == high {
      SnapshotsEnd(r, input, a, low, high, pivot, i);
    } else {
      var n := PartitionStep(r, a, high, pivot, i, j);
      SnapshotsStep(r, input, a, high, pivot, i, j);
      PartitionRunSnapshots(n.r, input, n.a, low, high, pivot, n.i, j + 1);
    }
  }

  lemma {:induction false} PartitionSnapshots(r: SortResult, input: seq<int>, a: seq<int>, low: int, high: int)
    requires 0 <= low <= high < |a|
    requires |a| == |input| && multiset(a) == multiset(input) && Permuting(r, input)
    ensures var s := Partitioned(r, a, low, high);
            Permuting(s.r, input) && multiset(s.a) == multiset(input)
  {
    var r0 := Describe(r, PivotChosen(a[high], high));
    PartitionRunSnapshots(r0, input, a, low, high, a[high], low - 1, low);
    PartitionRunArray(r0, a, low, high, a[high], low - 1, low);
    PartitionArrayKeeps(a, low, high, a[high], low - 1, low);
  }

  lemma {:induction false} QuickSortRunSnapshots(r: SortResult, input: seq<int>, a: seq<int>, low: int, high: int) returns (t: (SortResult, seq<int>))
    requires 0 <= low <= high + 1 <= |a|
    requires |a| == |input| && multiset(a) == multiset(input) && Permuting(r, input)
    ensures t == QuickSortRun(r, a, low, high) && Permuting(t.0, input) && multiset(t.1) == multiset(input)
    decreases high - low
  {
    if low < high {
      var q, left := QuickSortRunStep(r, a, low, high);
      PartitionSnapshots(r, input, a, low, high);
      var _ := QuickSortRunSnapshots(q.r, input, q.a, low, q.p - 1);
      t := QuickSortRunSnapshots(left.0, input, left.1, q.p + 1, high);
    } else {
      t := (r, a);
    }
  }

  // ------------------------------------------------------------ the trace

  /** What `quickSortRecursive(arr, 0, n - 1, ...)` leaves for the closing entry. */
  lemma {:induction false} WholeRange(a: seq<int>, b: seq<int>)
    requires Rearranged(a, b, 0, |a| - 1) && SortedOn(b, 0, |a| - 1)
    ensures Sorted(b) && multiset(b) == multiset(a)
  {
  }

  lemma {:induction false} QuickSortWhole(r: SortResult, input: seq<int>)
    ensures var b := QuickSortRun(r, input, 0, |input| - 1).1;
            Sorted(b) && multiset(b) == multiset(input)
  {
    var n := |input|;
    var b := QuickSortRun(r, input, 0, n - 1).1;
    var _ := QuickSortRunArray(r, input, 0, n - 1);
    QuickSortArraySorts(input, 0, n - 1);
    WholeRange(input, b);
  }


  /** The trace opens with the input, nothing highlighted and nothing marked sorted. */
  lemma {:induction false} QuickSortOpens(input: seq<int>)
    ensures OpensWith(QuickSortTrace(input), input)
  {
    var r := Initial(input);
    var s := QuickSortRunOpens(r, input, input, 0, |input| - 1);
    OpensRecorded(s.0, input, s.1);
  }

  lemma {:induction false} OpensRecorded(r: SortResult, input: seq<int>, b: seq<int>)
    requires OpensWith(r, input)
    ensures OpensWith(Record(r, b, [], FullySorted, Range(|input|)), input)
  {
  }

  /** The trace closes with the ascending sort of the input, every index marked sorted. */
  lemma {:induction false} QuickSortCloses(input: seq<int>)
    ensures ClosesWith(QuickSortTrace(input), input)
  {
    var s := QuickSortRun(Initial(input), input, 0, |input| - 1);
    QuickSortWhole(Initial(input), input);
    SortedPermutationIsAscending(input, s.1);
  }

  /** Highlights and sorted marks run parallel to the snapshots, and so do the
      descriptions once the "Pivot chosen" entries are set aside. */
  lemma {:induction false} QuickSortAligned(input: seq<int>)
    ensures var t := QuickSortTrace(input);
            Aligned(t) && |Snapshotted(t.descriptions)| == |t.steps|
  {
    var r := Initial(input);
    assert Snapshotted([InitialArray]) == [InitialArray] by {
      assert [InitialArray][..0] == [];
    }
    var s := QuickSortRunMoves(r, input, 0, |input| - 1);
    AlignedRecorded(s.0, input, s.1);
  }

  lemma {:induction false} AlignedRecorded(r: SortResult, input: seq<int>, b: seq<int>)
    requires Moving(r, b)
    ensures var t := Record(r, b, [], FullySorted, Range(|input|));
            Aligned(t) && |Snapshotted(t.descriptions)| == |t.steps|
  {
    SnapshottedAppend(r.descriptions, FullySorted);
  }

  /** Every entry but the closing one lists no index as sorted. */
  lemma {:induction false} QuickSortMarks(input: seq<int>)
    ensures var t := QuickSortTrace(input);
            Aligned(t) && forall k :: 0 <= k < |t.steps| - 1 ==> t.sortedIndices[k] == []
  {
    var s := QuickSortRun(Initial(input), input, 0, |input| - 1);
    var _ := QuickSortRunMarks(Initial(input), input, 0, |input| - 1);
    var t := QuickSortTrace(input);
    forall k | 0 <= k < |t.steps| - 1 ensures t.sortedIndices[k] == [] {
      assert t.sortedIndices[k] == s.0.sortedIndices[k];
    }
  }

  /** The closing entry keeps the moves and the snapshots of the entries before it. */
  lemma {:induction false} MovesClosed(r: SortResult, input: seq<int>, b: seq<int>)
    requires QuickMoves(r, Snapshotted(r.descriptions), |r.steps|) && |r.steps| > 0 && Closes(r)
    requires Permuting(r, input) && |b| == |input| && multiset(b) == multiset(input)
    ensures var t := Record(r, b, [], FullySorted, Range(|input|));
            var u := Snapshotted(t.descriptions);
            AllOfLength(t, |input|) && AllPermutations(t, input) &&
            QuickMoves(t, u, |t.steps| - 1) && ComparisonsClosed(u, |u|)
  {
    var t := Record(r, b, [], FullySorted, Range(|input|));
    var u := Snapshotted(r.descriptions);
    SnapshottedAppend(r.descriptions, FullySorted);
    ClosedAppend(u, FullySorted);
    forall k | 1 <= k < |r.steps| ensures MoveAt(t, u + [FullySorted], k) {
      assert MoveAt(r, u, k);
    }
    forall k | 0 <= k < |t.steps| ensures |t.steps[k]| == |input| && multiset(t.steps[k]) == multiset(input) {
      if k < |r.steps| {
        assert t.steps[k] == r.steps[k];
      }
    }
  }

  /** Every snapshot is a permutation of the input; every entry between the
      first and the last is a comparison with the pivot, a swap following a
      comparison that found a smaller value, or the pivot's move; and a
      comparison is followed by a swap exactly when it found a smaller value. */
  lemma {:induction false} QuickSortMoves(input: seq<int>)
    ensures var t := QuickSortTrace(input);
            var u := Snapshotted(t.descriptions);
            AllOfLength(t, |input|) && AllPermutations(t, input) &&
            QuickMoves(t, u, |t.steps| - 1) && ComparisonsClosed(u, |u|)
  {
    var n := |input|;
    var r := Initial(input);
    assert Snapshotted([InitialArray]) == [InitialArray] by {
      assert [InitialArray][..0] == [];
    }
    var s := QuickSortRunSnapshots(r, input, input, 0, n - 1);
    var _ := QuickSortRunMoves(r, input, 0, n - 1);
    var _ := QuickSortRunClosed(r, input, 0, n - 1);
    MovesClosed(s.0, input, s.1);
  }

  method Partition(arr: array<int>, low: int, high: int, r0: SortResult) returns (r: SortResult, p: int)
    requires 0 <= low <= high < arr.Length
    modifies arr
    ensures Parted(r, arr[..], p) == Partitioned(r0, old(arr[..]), low, high)
  {
    var pivot := arr[high];
    r := Describe(r0, PivotChosen(pivot, high));
    var i := low - 1;
    var j := low;
    while j < high
      invariant low <= j <= high && low - 1 <= i < j
      invariant PartitionRun(r, arr[..], low, high, pivot, i, j) == Partitioned(r0, old(arr[..]), low, high)
    {
      r := Record(r, arr[..], [j, high], ComparingWithPivot(arr[j], pivot), []);
      if arr[j] < pivot {
        i := i + 1;
        ghost var a := arr[..];
        arr[i], arr[j] := arr[j], arr[i];
        assert arr[..] == Swap(a, i, j);
        r := Record(r, arr[..], [i, j], SwappedValues(arr[i], arr[j]), []);
      }
      j := j + 1;
    }
    ghost var a := arr[..];
    arr[i + 1], arr[high] := arr[high], arr[i + 1];
    assert arr[..] == Swap(a, i + 1, high);
    r := Record(r, arr[..], [i + 1, high], MovedPivot(i + 1), []);
    p := i + 1;
  }

  method QuickSortRecursive(arr: array<int>, low: int, high: int, r0: SortResult) returns (r: SortResult)
    requires 0 <= low <= high + 1 <= arr.Length
    modifies arr
    ensures (r, arr[..]) == QuickSortRun(r0, old(arr[..]), low, high)
    decreases high - low
  {
    r := r0;
    if low < high {
      var p;
      r, p := Partition(arr, low, high, r);
      r := QuickSortRecursive(arr, low, p - 1, r);
      r := QuickSortRecursive(arr, p + 1, high, r);
    }
  }

  method ComputeQuickSortSteps(input: seq<int>) returns (r: SortResult)
    ensures r == QuickSortTrace(input)
  {
    var n := |input|;
    var arr := new int[n](k requires 0 <= k < n => input[k]);
    assert arr[..] == input;
    r := Initial(arr[..]);
    r := QuickSortRecursive(arr, 0, n - 1, r);
    r := Record(r, arr[..], [], FullySorted, Range(n));
  }
}
