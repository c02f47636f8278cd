/** The trace shared by the four sorting algorithms of
    app/utils/SortingAlgorithms.tsx (and of its compiled twin
    app/utils/SortingAlgorithms.js, which has the same logic). Each algorithm
    copies its input into a fresh array, sorts the copy in place and, after
    every comparison, swap or shift, appends to four parallel lists: a
    snapshot of the array, the highlighted indices, a description and the
    indices shown as sorted. */
module SortTrace {
  import opened SortOrder

  /** The description strings of the source, as tagged values. */
  datatype Description =
    | InitialArray                              // "Initial array"
    | SwappedAdjacent(i: int, j: int)           // "Swapped elements at index i and j"
    | ComparedNoSwap(a: int, b: int)            // "Compared a and b — no swap"
    | ComparedIndices(i: int, j: int)           // "Compared index i and j"
    | SwappedWithMin(i: int, minIndex: int)     // "Swapped index i with min index m"
    | PickedElement(key: int)                   // "Picked element key for insertion"
    | Shifted(value: int, to: int)              // "Shifted v right to index t"
    | Inserted(key: int, at: int)               // "Inserted key at index p"
    | PivotChosen(pivot: int, at: int)          // "Pivot chosen: v at index h"
    | ComparingWithPivot(value: int, pivot: int)// "Comparing v with pivot p"
    | SwappedValues(a: int, b: int)             // "Swapped a and b"
    | MovedPivot(to: int)                       // "Moved pivot to index p"
    | FullySorted                               // "Array fully sorted"

  /** The `SortResult` shape: four lists grown by `push`. */
  datatype SortResult = SortResult(
    steps: seq<seq<int>>,
    highlights: seq<seq<int>>,
    descriptions: seq<Description>,
    sortedIndices: seq<seq<int>>)

  /** The four lists as every algorithm initialises them. */
  function Initial(input: seq<int>): SortResult {
    SortResult([input], [[]], [InitialArray], [[]])
  }

  /** One `push` onto each of the four lists. */
  function Record(r: SortResult, snapshot: seq<int>, highlight: seq<int>, d: Description, sorted: seq<int>): SortResult {
    SortResult(r.steps + [snapshot], r.highlights + [highlight], r.descriptions + [d], r.sortedIndices + [sorted])
  }

  /** A `push` onto `descriptions` alone. */
  function Describe(r: SortResult, d: Description): SortResult {
    r.(descriptions := r.descriptions + [d])
  }

  /** `Array.from({ length: i }, (_, k) => n - k - 1)`: the last `i` indices, from the end. */
  function TailIndices(n: int, i: nat): (r: seq<int>)
    ensures |r| == i && forall k :: 0 <= k < i ==> r[k] == n - k - 1
  {
    seq(i, k => n - k - 1)
  }

  /** `r'` is `r` with entries appended: each of the four lists of `r` is a
      prefix of the same list of `r'`. */
  predicate Extends(r: SortResult, r': SortResult) {
    r.steps <= r'.steps && r.highlights <= r'.highlights &&
    r.descriptions <= r'.descriptions && r.sortedIndices <= r'.sortedIndices
  }

  /** Number of passes an outer loop `for (i = 0; i < n - 1; i++)` makes. */
  function Passes(n: nat): nat {
    if n == 0 then 0 else n - 1
  }

  /** Entry 0 is the input unchanged, described as "Initial array", with nothing highlighted or sorted. */
  predicate OpensWith(r: SortResult, input: seq<int>) {
    |r.steps| > 0 && |r.highlights| > 0 && |r.descriptions| > 0 && |r.sortedIndices| > 0 &&
    r.steps[0] == input && r.highlights[0] == [] &&
    r.descriptions[0] == InitialArray && r.sortedIndices[0] == []
  }

  /** The last entry is the ascending sort of the input, nothing highlighted,
      "Array fully sorted", and every index sorted. */
  predicate ClosesWith(r: SortResult, input: seq<int>) {
    |r.steps| > 0 && |r.highlights| > 0 && |r.descriptions| > 0 && |r.sortedIndices| > 0 &&
    r.steps[|r.steps| - 1] == Ascending(input) &&
    r.highlights[|r.highlights| - 1] == [] &&
    r.descriptions[|r.descriptions| - 1] == FullySorted &&
    r.sortedIndices[|r.sortedIndices| - 1] == Range(|input|)
  }

  /** `highlights` and `sortedIndices` run parallel to `steps`. */
  predicate Aligned(r: SortResult) {
    |r.highlights| == |r.steps| && |r.sortedIndices| == |r.steps|
  }

  /** Every snapshot is a permutation of the input. */
  predicate AllPermutations(r: SortResult, input: seq<int>) {
    forall k :: 0 <= k < |r.steps| ==> multiset(r.steps[k]) == multiset(input)
  }

  /** Every snapshot has the input's length. */
  predicate AllOfLength(r: SortResult, n: int) {
    forall k :: 0 <= k < |r.steps| ==> |r.steps[k]| == n
  }

  /** Pushing a permutation of the input keeps every snapshot a permutation of it. */
  lemma {:induction false} SnapshotRecorded(r: SortResult, input: seq<int>, s: seq<int>, h: seq<int>, d: Description, marks: seq<int>)
    requires AllOfLength(r, |input|) && AllPermutations(r, input)
    requires |s| == |input| && multiset(s) == multiset(input)
    ensures var r' := Record(r, s, h, d, marks);
            AllOfLength(r', |input|) && AllPermutations(r', input)
  {
    var r' := Record(r, s, h, d, marks);
    forall k | 0 <= k < |r'.steps| ensures |r'.steps[k]| == |input| && multiset(r'.steps[k]) == multiset(input) {
      if k < |r.steps| {
        assert r'.steps[k] == r.steps[k];
      }
    }
  }

  /** Every index an entry lists as sorted already holds its final value. */
  predicate Settled(r: SortResult) {
    Aligned(r) && |r.steps| > 0 &&
    forall k, t :: 0 <= k < |r.steps| && 0 <= t < |r.sortedIndices[k]| ==>
      0 <= r.sortedIndices[k][t] < |r.steps[k]| &&
      r.sortedIndices[k][t] < |r.steps[|r.steps| - 1]| &&
      r.steps[k][r.sortedIndices[k][t]] == r.steps[|r.steps| - 1][r.sortedIndices[k][t]]
  }

  /** Every index recorded as sorted lies in `[lo, hi)` and shows the value `a` holds there. */
  ghost predicate MarksAgree(r: SortResult, a: seq<int>, lo: int, hi: int) {
    Aligned(r) && AllOfLength(r, |a|) && 0 <= lo && hi <= |a| &&
    forall k, t :: 0 <= k < |r.steps| && 0 <= t < |r.sortedIndices[k]| ==>
      lo <= r.sortedIndices[k][t] < hi && r.steps[k][r.sortedIndices[k][t]] == a[r.sortedIndices[k][t]]
  }

  /** Once the working array is final, entries whose sorted indices agree with
      it are settled, and the closing entry (every index sorted) is too. */
  lemma {:induction false} MarksSettleAtClose(r: SortResult, a: seq<int>, lo: int, hi: int)
    requires MarksAgree(r, a, lo, hi)
    ensures Settled(Record(r, a, [], FullySorted, Range(|a|)))
  {
    var r' := Record(r, a, [], FullySorted, Range(|a|));
    forall k, t | 0 <= k < |r'.steps| && 0 <= t < |r'.sortedIndices[k]|
      ensures 0 <= r'.sortedIndices[k][t] < |r'.steps[k]|
      ensures r'.sortedIndices[k][t] < |r'.steps[|r'.steps| - 1]|
      ensures r'.steps[k][r'.sortedIndices[k][t]] == r'.steps[|r'.steps| - 1][r'.sortedIndices[k][t]]
    {
      if k < |r.steps| {
        assert r'.steps[k] == r.steps[k] && r'.sortedIndices[k] == r.sortedIndices[k];
      }
    }
  }

  /** The descriptions that come with a snapshot of their own: all but the
      "Picked element" and "Pivot chosen" entries, which insertion sort and
      quicksort push onto `descriptions` alone. */
  function Snapshotted(ds: seq<Description>): seq<Description> {
    if ds == [] then []
    else if ds[|ds| - 1].PickedElement? || ds[|ds| - 1].PivotChosen? then Snapshotted(ds[..|ds| - 1])
    else Snapshotted(ds[..|ds| - 1]) + [ds[|ds| - 1]]
  }

  lemma {:induction false} SnapshottedAppend(ds: seq<Description>, d: Description)
    ensures Snapshotted(ds + [d]) ==
            if d.PickedElement? || d.PivotChosen? then Snapshotted(ds) else Snapshotted(ds) + [d]
  {
    assert (ds + [d])[..|ds|] == ds;
  }
}
