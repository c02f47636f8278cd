/** `computeInsertionSortSteps` of app/utils/SortingAlgorithms.tsx: for
    `i = 1 .. n-1` the key `arr[i]` is picked, larger values of the sorted
    prefix are copied one slot right (a snapshot after each copy), and the key
    is written into the gap. */
module InsertionSort {
  import opened SortOrder
  import opened SortTrace

  /** Where the run may be: `j == i` before the key of pass `i` is picked,
      `-1 <= j < i` while shifting with `j` the next slot to test. */
  predicate InsertionPos(n: int, i: int, j: int) {
    1 <= i && -1 <= j <= i && (i < n || (j == i && (i == n || i == 1)))
  }

  /** The run's state between two turns of its loops. */
  datatype Ins = Ins(r: SortResult, a: seq<int>, i: int, j: int, key: int)

  /** One turn: pick the key of pass `i`, shift `a[j]` one slot right, or
      write the key into the gap and move on to pass `i + 1`. */
  function InsertionNext(r: SortResult, a: seq<int>, i: int, j: int, key: int): (s: Ins)
    requires InsertionPos(|a|, i, j) && i < |a|
    ensures |s.a| == |a| && InsertionPos(|a|, s.i, s.j)
    ensures s.i == i + 1 || (s.i == i && s.j < j)
  {
    if j == i then
      Ins(Describe(r, PickedElement(a[i])), a, i, i - 1, a[i])
    else if j >= 0 && a[j] > key then
      var a' := a[j + 1 := a[j]];
      Ins(Record(r, a', [j, j + 1], Shifted(a'[j], j + 1), Range(i)), a', i, j - 1, key)
    else
      var a' := a[j + 1 := key];
      Ins(Record(r, a', [j + 1], Inserted(key, j + 1), Range(i + 1)), a', i + 1, i + 1, 0)
  }

  /** The rest of the run from position `(i, j)` with trace `r`, working
      array `a` and the picked `key`. */
  function InsertionRun(r: SortResult, a: seq<int>, i: int, j: int, key: int): SortResult
    requires InsertionPos(|a|, i, j)
    decreases |a| + 1 - i, j + 1
  {
    if i >= |a| then
      Record(r, a, [], FullySorted, Range(|a|))
    else
      var s := InsertionNext(r, a, i, j, key);
      InsertionRun(s.r, s.a, s.i, s.j, s.key)
  }

  /** The trace `computeInsertionSortSteps(input)` returns. */
  function InsertionSortTrace(input: seq<int>): SortResult {
    InsertionRun(Initial(input), input, 1, 1, 0)
  }

  /** Where the rest of pass `i` leaves the run: the state once the key has
      been written into the gap, at the start of pass `i + 1`. */
  function PassEnd(r: SortResult, a: seq<int>, i: int, j: int, key: int): (s: Ins)
    requires InsertionPos(|a|, i, j) && i < |a|
    ensures |s.a| == |a| && s.i == i + 1 && s.j == i + 1
    decreases j + 1
  {
    var s := InsertionNext(r, a, i, j, key);
    if s.i == i + 1 then s else PassEnd(s.r, s.a, s.i, s.j, s.key)
  }

  /** Entry `cur` (with highlight `h`, snapshot description `d` and sorted
      marks `marks`) follows `prev` by one shift or by the insertion of the key. */
  predicate InsertionMove(prev: seq<int>, cur: seq<int>, h: seq<int>, d: Description, marks: seq<int>) {
    match d
    case Shifted(v, to) =>
      1 <= to < |prev| && to <= |marks| && h == [to - 1, to] &&
      cur == prev[to := prev[to - 1]] && v == cur[to - 1]
    case Inserted(key, p) =>
      0 <= p < |prev| && p < |marks| && h == [p] && cur == prev[p := key]
    case _ => false
  }

  /** Entries 1 up to (not including) `upTo` are shifts or insertions, with
      `u` the descriptions that have a snapshot. */
  predicate MovesWith(r: SortResult, u: seq<Description>, upTo: int) {
    Aligned(r) && |u| == |r.steps| && upTo <= |r.steps| &&
    forall k :: 1 <= k < upTo ==>
      InsertionMove(r.steps[k - 1], r.steps[k], r.highlights[k], u[k], r.sortedIndices[k])
  }

  /** Every entry from 1 up to (not including) `upTo` is a shift or an insertion. */
  predicate InsertionMoves(r: SortResult, upTo: int) {
    MovesWith(r, Snapshotted(r.descriptions), upTo)
  }

  /** The indices an entry lists as sorted form a prefix, and the snapshot is
      ascending on it. */
  predicate PrefixesSorted(r: SortResult) {
    Aligned(r) &&
    forall k :: 0 <= k < |r.steps| ==>
      r.sortedIndices[k] == Range(|r.sortedIndices[k]|) && |r.sortedIndices[k]| <= |r.steps[k]| &&
      Sorted(r.steps[k][..|r.sortedIndices[k]|])
  }

  /** Every snapshot recorded by an insertion is a permutation of the input. */
  predicate InsertsPermute(r: SortResult, input: seq<int>) {
    Aligned(r) &&
    forall k :: 0 <= k < |r.steps| && |r.highlights[k]| == 1 ==> multiset(r.steps[k]) == multiset(input)
  }

  /** A shift snapshot with highlight `h == [j, j + 1]`: slots `j` and `j + 1`
      hold the same value, and writing a key smaller than it back into slot
      `j` gives a permutation of the input. */
  ghost predicate ShiftDuplicates(s: seq<int>, h: seq<int>, input: seq<int>) {
    |h| == 2 && 0 <= h[0] && h[1] == h[0] + 1 && h[1] < |s| && s[h[0]] == s[h[1]] &&
    exists key :: Restores(s, h[0], key, input)
  }

  /** Writing `key`, smaller than `s[j]`, into slot `j` gives a permutation of the input. */
  ghost predicate Restores(s: seq<int>, j: int, key: int, input: seq<int>) {
    0 <= j < |s| && key < s[j] && multiset(s[j := key]) == multiset(input)
  }

  /** Every snapshot recorded by a shift duplicates a value in place of the key. */
  ghost predicate ShiftsDuplicate(r: SortResult, input: seq<int>) {
    Aligned(r) &&
    forall k :: 0 <= k < |r.steps| && |r.highlights[k]| == 2 ==>
      ShiftDuplicates(r.steps[k], r.highlights[k], input)
  }

  // ------------------------------------------------------------ the order invariant

  /** While shifting in pass `i` with hole `j + 1`: `a[..i+1]` is ascending
      once the hole is ignored, and everything right of the hole exceeds the key. */
  ghost predicate Shifting(a: seq<int>, i: int, j: int, key: int) {
    -1 <= j < i < |a| &&
    (forall x, y :: 0 <= x < y <= i && x != j + 1 && y != j + 1 ==> a[x] <= a[y]) &&
    (forall y :: j + 1 < y <= i ==> key < a[y])
  }

  /** The order invariant at each position of the run. */
  ghost predicate InsertionOrder(a: seq<int>, i: int, j: int, key: int) {
    if j == i then 0 <= i <= |a| ==> Sorted(a[..i]) else Shifting(a, i, j, key)
  }

  lemma {:induction false} PickKeeps(a: seq<int>, i: int)
    requires 1 <= i < |a| && Sorted(a[..i])
    ensures Shifting(a, i, i - 1, a[i])
  {
    forall x, y | 0 <= x < y <= i && x != i && y != i ensures a[x] <= a[y] {
      assert a[x] == a[..i][x] && a[y] == a[..i][y];
    }
  }

  /** A shift moves the hole left and leaves the marked prefix ascending. */
  lemma {:induction false} ShiftKeeps(a: seq<int>, i: int, j: int, key: int)
    requires Shifting(a, i, j, key) && j >= 0 && a[j] > key
    ensures Shifting(a[j + 1 := a[j]], i, j - 1, key) && Sorted(a[j + 1 := a[j]][..i])
  {
    var a' := a[j + 1 := a[j]];
    forall x, y | 0 <= x < y <= i && x != j && y != j ensures a'[x] <= a'[y] {
      if y == j + 1 {
        assert a[x] <= a[j];
      } else if x == j + 1 {
        assert a[j] <= a[y];
      }
    }
    forall x, y | 0 <= x < y < i ensures a'[..i][x] <= a'[..i][y] {
      if x == j && y > j + 1 {
        assert a'[j + 1] <= a'[y];
      } else if y == j && j + 1 <= i {
        assert a'[x] <= a'[j + 1];
      }
    }
  }

  /** Writing the key into the hole leaves `a[..i+1]` ascending. */
  lemma {:induction false} InsertKeeps(a: seq<int>, i: int, j: int, key: int)
    requires Shifting(a, i, j, key) && (j < 0 || a[j] <= key)
    ensures Sorted(a[j + 1 := key][..i + 1])
  {
    var b := a[j + 1 := key][..i + 1];
    forall x, y | 0 <= x < y < |b| ensures b[x] <= b[y] {
      if y == j + 1 {
        assert a[x] <= a[j];
      }
    }
  }

  // ------------------------------------------------------------ the run

  /** The run only appends: the opening entry stays in place. */
  lemma {:induction false} InsertionRunOpens(r: SortResult, input: seq<int>, a: seq<int>, i: int, j: int, key: int)
    requires InsertionPos(|a|, i, j) && OpensWith(r, input)
    ensures OpensWith(InsertionRun(r, a, i, j, key), input)
    decreases |a| + 1 - i, j + 1
  {
    if i < |a| {
      var s := InsertionNext(r, a, i, j, key);
      InsertionRunOpens(s.r, input, s.a, s.i, s.j, s.key);
    }
  }


  /** The lists stay aligned except for one extra description per pass, and
      the run ends with the closing entry. */
  lemma {:induction false} InsertionRunShape(r: SortResult, a: seq<int>, i: int, j: int, key: int)
    requires InsertionPos(|a|, i, j) && Aligned(r)
    requires |r.descriptions| == |r.steps| + (if j == i then i - 1 else i)
    ensures var t := InsertionRun(r, a, i, j, key);
            Aligned(t) && |t.steps| > 0 && |t.descriptions| == |t.steps| + Passes(|a|) &&
            t.descriptions[|t.descriptions| - 1] == FullySorted &&
            t.highlights[|t.highlights| - 1] == [] && t.sortedIndices[|t.sortedIndices| - 1] == Range(|a|)
    decreases |a| + 1 - i, j + 1
  {
    if i < |a| {
      var s := InsertionNext(r, a, i, j, key);
      InsertionRunShape(s.r, s.a, s.i, s.j, s.key);
    }
  }


  /** The snapshot count so far at position `(i, j)`: between one and
      `1 + i'` snapshots for each pass `i'` before `i`, and one per shift
      of pass `i` so far. */
  predicate CountSoFar(r: SortResult, i: int, j: int) {
    (j == i ==> i <= |r.steps| && 2 * |r.steps| <= 2 * i + i * (i - 1)) &&
    (j < i ==> 2 * i - 1 - j <= |r.steps| && 2 * |r.steps| <= 2 * i + i * (i - 1) + 2 * (i - 1 - j))
  }

  lemma {:induction false} CountNext(r: SortResult, a: seq<int>, i: int, j: int, key: int)
    requires InsertionPos(|a|, i, j) && i < |a| && CountSoFar(r, i, j)
    ensures var s := InsertionNext(r, a, i, j, key); CountSoFar(s.r, s.i, s.j)
  {
    if j < i && !(j >= 0 && a[j] > key) {
      assert (i + 1) * i == i * (i - 1) + 2 * i;
    }
  }

  /** Pass `i` shifts at most `i` times: at least one and at most `1 + i`
      snapshots per pass. */
  lemma {:induction false} InsertionRunCount(r: SortResult, a: seq<int>, i: int, j: int, key: int)
    requires InsertionPos(|a|, i, j) && CountSoFar(r, i, j)
    ensures var t := InsertionRun(r, a, i, j, key);
            2 + Passes(|a|) <= |t.steps| && 2 * |t.steps| <= 2 * (2 + Passes(|a|)) + |a| * (|a| - 1)
    decreases |a| + 1 - i, j + 1
  {
    if i < |a| {
      var s := InsertionNext(r, a, i, j, key);
      CountNext(r, a, i, j, key);
      InsertionRunCount(s.r, s.a, s.i, s.j, s.key);
    }
  }

  /** Every snapshot keeps the input's length. */
  lemma {:induction false} InsertionRunLengths(r: SortResult, a: seq<int>, i: int, j: int, key: int)
    requires InsertionPos(|a|, i, j) && AllOfLength(r, |a|)
    ensures AllOfLength(InsertionRun(r, a, i, j, key), |a|)
    decreases |a| + 1 - i, j + 1
  {
    if i < |a| {
      var s := InsertionNext(r, a, i, j, key);
      InsertionRunLengths(s.r, s.a, s.i, s.j, s.key);
    }
  }


  /** Appending an entry keeps the earlier moves. */
  lemma {:induction false} MovesRecord(r: SortResult, u: seq<Description>, s: seq<int>, h: seq<int>, d: Description, marks: seq<int>)
    requires MovesWith(r, u, |r.steps|)
    ensures MovesWith(Record(r, s, h, d, marks), u + [d], |r.steps|)
  {
    var r' := Record(r, s, h, d, marks);
    forall k | 1 <= k < |r.steps|
      ensures InsertionMove(r'.steps[k - 1], r'.steps[k], r'.highlights[k], (u + [d])[k], r'.sortedIndices[k])
    {
      assert InsertionMove(r.steps[k - 1], r.steps[k], r.highlights[k], u[k], r.sortedIndices[k]);
    }
  }

  /** Recording a shift or an insertion (`d`) extends the moves by one. */
  lemma {:induction false} MoveRecorded(r: SortResult, u: seq<Description>, a': seq<int>, h: seq<int>, d: Description, marks: seq<int>)
    requires MovesWith(r, u, |r.steps|) && u == Snapshotted(r.descriptions) && |r.steps| > 0
    requires InsertionMove(r.steps[|r.steps| - 1], a', h, d, marks)
    ensures var r' := Record(r, a', h, d, marks);
            MovesWith(r', u + [d], |r'.steps|) && u + [d] == Snapshotted(r'.descriptions)
  {
    MovesRecord(r, u, a', h, d, marks);
    SnapshottedAppend(r.descriptions, d);
  }

  /** One turn records a shift or an insertion from the working array, or
      only a description. */
  lemma {:induction false} MovesNext(r: SortResult, u: seq<Description>, a: seq<int>, i: int, j: int, key: int)
    returns (u': seq<Description>)
    requires InsertionPos(|a|, i, j) && i < |a|
    requires MovesWith(r, u, |r.steps|) && u == Snapshotted(r.descriptions)
    requires |r.steps| > 0 && r.steps[|r.steps| - 1] == a
    ensures var s := InsertionNext(r, a, i, j, key);
            MovesWith(s.r, u', |s.r.steps|) && u' == Snapshotted(s.r.descriptions) &&
            |s.r.steps| > 0 && s.r.steps[|s.r.steps| - 1] == s.a
  {
    if j == i {
      SnapshottedAppend(r.descriptions, PickedElement(a[i]));
      u' := u;
    } else if j >= 0 && a[j] > key {
      var a' := a[j + 1 := a[j]];
      var d := Shifted(a'[j], j + 1);
      assert InsertionMove(a, a', [j, j + 1], d, Range(i));
      MoveRecorded(r, u, a', [j, j + 1], d, Range(i));
      u' := u + [d];
    } else {
      var a' := a[j + 1 := key];
      var d := Inserted(key, j + 1);
      assert InsertionMove(a, a', [j + 1], d, Range(i + 1));
      MoveRecorded(r, u, a', [j + 1], d, Range(i + 1));
      u' := u + [d];
    }
  }

  /** Each entry before the closing one is a shift or an insertion. */
  lemma {:induction false} InsertionRunMoves(r: SortResult, u: seq<Description>, a: seq<int>, i: int, j: int, key: int)
    requires InsertionPos(|a|, i, j)
    requires MovesWith(r, u, |r.steps|) && u == Snapshotted(r.descriptions)
    requires |r.steps| > 0 && r.steps[|r.steps| - 1] == a
    ensures var t := InsertionRun(r, a, i, j, key);
            InsertionMoves(t, |t.steps| - 1)
    decreases |a| + 1 - i, j + 1
  {
    if i >= |a| {
      SnapshottedAppend(r.descriptions, FullySorted);
      MovesRecord(r, u, a, [], FullySorted, Range(|a|));
    } else {
      var s := InsertionNext(r, a, i, j, key);
      var u' := MovesNext(r, u, a, i, j, key);
      InsertionRunMoves(s.r, u', s.a, s.i, s.j, s.key);
    }
  }

  lemma {:induction false} PrefixesRecord(r: SortResult, s: seq<int>, h: seq<int>, d: Description, marks: seq<int>)
    requires PrefixesSorted(r)
    requires marks == Range(|marks|) && |marks| <= |s| && Sorted(s[..|marks|])
    ensures PrefixesSorted(Record(r, s, h, d, marks))
  {
    var r' := Record(r, s, h, d, marks);
    forall k | 0 <= k < |r'.steps|
      ensures r'.sortedIndices[k] == Range(|r'.sortedIndices[k]|) && |r'.sortedIndices[k]| <= |r'.steps[k]|
      ensures Sorted(r'.steps[k][..|r'.sortedIndices[k]|])
    {
      if k < |r.steps| {
        assert r'.steps[k] == r.steps[k] && r'.sortedIndices[k] == r.sortedIndices[k];
      }
    }
  }

  /** One turn keeps the marked prefixes ascending and the order invariant. */
  lemma {:induction false} PrefixesNext(r: SortResult, a: seq<int>, i: int, j: int, key: int)
    requires InsertionPos(|a|, i, j) && i < |a| && PrefixesSorted(r) && InsertionOrder(a, i, j, key)
    ensures var s := InsertionNext(r, a, i, j, key);
            PrefixesSorted(s.r) && InsertionOrder(s.a, s.i, s.j, s.key)
  {
    if j == i {
      PickKeeps(a, i);
    } else if j >= 0 && a[j] > key {
      var a' := a[j + 1 := a[j]];
      ShiftKeeps(a, i, j, key);
      PrefixesRecord(r, a', [j, j + 1], Shifted(a'[j], j + 1), Range(i));
    } else {
      var a' := a[j + 1 := key];
      InsertKeeps(a, i, j, key);
      PrefixesRecord(r, a', [j + 1], Inserted(key, j + 1), Range(i + 1));
    }
  }

  /** The marked prefix of every snapshot is ascending. */
  lemma {:induction false} InsertionRunPrefixes(r: SortResult, a: seq<int>, i: int, j: int, key: int)
    requires InsertionPos(|a|, i, j) && PrefixesSorted(r) && InsertionOrder(a, i, j, key)
    ensures PrefixesSorted(InsertionRun(r, a, i, j, key))
    decreases |a| + 1 - i, j + 1
  {
    if i >= |a| {
      assert a[..|a|] == a;
      PrefixesRecord(r, a, [], FullySorted, Range(|a|));
    } else {
      var s := InsertionNext(r, a, i, j, key);
      PrefixesNext(r, a, i, j, key);
      InsertionRunPrefixes(s.r, s.a, s.i, s.j, s.key);
    }
  }

  /** The values the run holds: the array itself between passes, and the array
      with the key written into the hole while shifting. */
  ghost predicate Holds(a: seq<int>, i: int, j: int, key: int, input: seq<int>) {
    if j == i then multiset(a) == multiset(input)
    else 0 <= j + 1 < |a| && multiset(a[j + 1 := key]) == multiset(input)
  }

  /** A shift moves the hole down one slot: the held values do not change. */
  lemma {:induction false} ShiftHolds(a: seq<int>, i: int, j: int, key: int, input: seq<int>)
    requires 0 <= j < i < |a| && Holds(a, i, j, key, input)
    ensures Holds(a[j + 1 := a[j]], i, j - 1, key, input)
  {
    assert a[j + 1 := a[j]][j := key] == Swap(a[j + 1 := key], j, j + 1);
    SwapPermutes(a[j + 1 := key], j, j + 1);
  }

  lemma {:induction false} PermuteRecord(r: SortResult, input: seq<int>, s: seq<int>, h: seq<int>, d: Description, marks: seq<int>)
    requires InsertsPermute(r, input) && (|h| == 1 ==> multiset(s) == multiset(input))
    ensures InsertsPermute(Record(r, s, h, d, marks), input)
  {
    var r' := Record(r, s, h, d, marks);
    forall k | 0 <= k < |r'.steps| && |r'.highlights[k]| == 1 ensures multiset(r'.steps[k]) == multiset(input) {
      if k < |r.steps| {
        assert r'.steps[k] == r.steps[k] && r'.highlights[k] == r.highlights[k];
      }
    }
  }

  /** One turn keeps the held values and the insertion snapshots permutations of the input. */
  lemma {:induction false} PermutesNext(r: SortResult, input: seq<int>, a: seq<int>, i: int, j: int, key: int)
    requires InsertionPos(|a|, i, j) && i < |a| && InsertsPermute(r, input) && Holds(a, i, j, key, input)
    ensures var s := InsertionNext(r, a, i, j, key);
            InsertsPermute(s.r, input) && Holds(s.a, s.i, s.j, s.key, input)
  {
    if j == i {
      assert a[i := a[i]] == a;
    } else if j >= 0 && a[j] > key {
      var a' := a[j + 1 := a[j]];
      ShiftHolds(a, i, j, key, input);
      PermuteRecord(r, input, a', [j, j + 1], Shifted(a'[j], j + 1), Range(i));
    } else {
      var a' := a[j + 1 := key];
      PermuteRecord(r, input, a', [j + 1], Inserted(key, j + 1), Range(i + 1));
    }
  }

  /** Every snapshot recorded by an insertion holds the input's values. */
  lemma {:induction false} InsertionRunPermutes(r: SortResult, input: seq<int>, a: seq<int>, i: int, j: int, key: int)
    requires InsertionPos(|a|, i, j) && InsertsPermute(r, input) && Holds(a, i, j, key, input)
    ensures InsertsPermute(InsertionRun(r, a, i, j, key), input)
    decreases |a| + 1 - i, j + 1
  {
    if i >= |a| {
      PermuteRecord(r, input, a, [], FullySorted, Range(|a|));
    } else {
      var s := InsertionNext(r, a, i, j, key);
      PermutesNext(r, input, a, i, j, key);
      InsertionRunPermutes(s.r, input, s.a, s.i, s.j, s.key);
    }
  }

  lemma {:induction false} DuplicateRecord(r: SortResult, input: seq<int>, s: seq<int>, h: seq<int>, d: Description, marks: seq<int>)
    requires ShiftsDuplicate(r, input) && (|h| == 2 ==> ShiftDuplicates(s, h, input))
    ensures ShiftsDuplicate(Record(r, s, h, d, marks), input)
  {
    var r' := Record(r, s, h, d, marks);
    forall k | 0 <= k < |r'.steps| && |r'.highlights[k]| == 2 ensures ShiftDuplicates(r'.steps[k], r'.highlights[k], input) {
      if k < |r.steps| {
        assert r'.steps[k] == r.steps[k] && r'.highlights[k] == r.highlights[k];
      }
    }
  }

  /** A shift's snapshot duplicates the shifted value over a gap that the
      smaller key fills. */
  lemma {:induction false} ShiftDuplicated(r: SortResult, input: seq<int>, a: seq<int>, i: int, j: int, key: int)
    requires 0 <= j < i < |a| && a[j] > key && ShiftsDuplicate(r, input) && Holds(a, i, j, key, input)
    ensures var a' := a[j + 1 := a[j]];
            ShiftsDuplicate(Record(r, a', [j, j + 1], Shifted(a'[j], j + 1), Range(i)), input) &&
            Holds(a', i, j - 1, key, input)
  {
    var a' := a[j + 1 := a[j]];
    ShiftHolds(a, i, j, key, input);
    assert Restores(a', j, key, input);
    assert ShiftDuplicates(a', [j, j + 1], input);
    DuplicateRecord(r, input, a', [j, j + 1], Shifted(a'[j], j + 1), Range(i));
  }

  /** One turn keeps the held values and the shift snapshots duplicating. */
  lemma {:induction false} DuplicatesNext(r: SortResult, input: seq<int>, a: seq<int>, i: int, j: int, key: int)
    requires InsertionPos(|a|, i, j) && i < |a| && ShiftsDuplicate(r, input) && Holds(a, i, j, key, input)
    ensures var s := InsertionNext(r, a, i, j, key);
            ShiftsDuplicate(s.r, input) && Holds(s.a, s.i, s.j, s.key, input)
  {
    if j == i {
      assert a[i := a[i]] == a;
    } else if j >= 0 && a[j] > key {
      ShiftDuplicated(r, input, a, i, j, key);
    } else {
      DuplicateRecord(r, input, a[j + 1 := key], [j + 1], Inserted(key, j + 1), Range(i + 1));
    }
  }

  /** Every shift snapshot of the rest of the run duplicates a value. */
  lemma {:induction false} InsertionRunDuplicates(r: SortResult, input: seq<int>, a: seq<int>, i: int, j: int, key: int)
    requires InsertionPos(|a|, i, j) && ShiftsDuplicate(r, input) && Holds(a, i, j, key, input)
    ensures ShiftsDuplicate(InsertionRun(r, a, i, j, key), input)
    decreases |a| + 1 - i, j + 1
  {
    if i >= |a| {
      DuplicateRecord(r, input, a, [], FullySorted, Range(|a|));
    } else {
      var s := InsertionNext(r, a, i, j, key);
      DuplicatesNext(r, input, a, i, j, key);
      InsertionRunDuplicates(s.r, input, s.a, s.i, s.j, s.key);
    }
  }

  /** A snapshot that turns into a permutation of the input once a different
      value is written into one slot is not itself a permutation of it. */
  lemma {:induction false} DuplicateNotPermutation(s: seq<int>, j: int, key: int, input: seq<int>)
    requires 0 <= j < |s| && key != s[j] && multiset(s[j := key]) == multiset(input)
    ensures multiset(s) != multiset(input)
  {
    assert multiset(s[j := key]) == multiset(s) - multiset{s[j]} + multiset{key};
    assert multiset(input)[key] == multiset(s)[key] + 1;
  }

  /** The array the rest of the run leaves behind. */
  function InsertionArray(a: seq<int>, i: int, j: int, key: int): (r: seq<int>)
    requires InsertionPos(|a|, i, j)
    ensures |r| == |a|
    decreases |a| + 1 - i, j + 1
  {
    var n := |a|;
    if i >= n then a
    else if j == i then InsertionArray(a, i, i - 1, a[i])
    else if j >= 0 && a[j] > key then InsertionArray(a[j + 1 := a[j]], i, j - 1, key)
    else InsertionArray(a[j + 1 := key], i + 1, i + 1, 0)
  }

  /** The closing snapshot is the array the run leaves behind. */
  lemma {:induction false} InsertionRunLast(r: SortResult, a: seq<int>, i: int, j: int, key: int)
    requires InsertionPos(|a|, i, j)
    ensures var t := InsertionRun(r, a, i, j, key);
            |t.steps| > 0 && t.steps[|t.steps| - 1] == InsertionArray(a, i, j, key)
    decreases |a| + 1 - i, j + 1
  {
    if i < |a| {
      var s := InsertionNext(r, a, i, j, key);
      InsertionRunLast(s.r, s.a, s.i, s.j, s.key);
    }
  }


  /** One turn of the trace-free run: it leads to the same final array and
      keeps the held values. */
  lemma {:induction false} ArrayTurn(a: seq<int>, i: int, j: int, key: int, input: seq<int>)
    returns (a': seq<int>, i': int, j': int, key': int)
    requires InsertionPos(|a|, i, j) && i < |a|
    ensures |a'| == |a| && InsertionPos(|a'|, i', j') && (i' == i + 1 || (i' == i && j' < j))
    ensures InsertionArray(a, i, j, key) == InsertionArray(a', i', j', key')
    ensures Holds(a, i, j, key, input) ==> Holds(a', i', j', key', input)
  {
    if j == i {
      a', i', j', key' := a, i, i - 1, a[i];
      assert a[i := a[i]] == a;
    } else if j >= 0 && a[j] > key {
      a', i', j', key' := a[j + 1 := a[j]], i, j - 1, key;
      if Holds(a, i, j, key, input) {
        ShiftHolds(a, i, j, key, input);
      }
    } else {
      a', i', j', key' := a[j + 1 := key], i + 1, i + 1, 0;
    }
  }

  lemma {:induction false} InsertionArrayPermutes(input: seq<int>, a: seq<int>, i: int, j: int, key: int)
    requires InsertionPos(|a|, i, j) && Holds(a, i, j, key, input)
    ensures multiset(InsertionArray(a, i, j, key)) == multiset(input)
    decreases |a| + 1 - i, j + 1
  {
    if i < |a| {
      var a', i', j', key' := ArrayTurn(a, i, j, key, input);
      InsertionArrayPermutes(input, a', i', j', key');
    }
  }

  lemma {:induction false} InsertionArraySorts(a: seq<int>, i: int, j: int, key: int)
    requires InsertionPos(|a|, i, j) && InsertionOrder(a, i, j, key)
    ensures Sorted(InsertionArray(a, i, j, key))
    decreases |a| + 1 - i, j + 1
  {
    var n := |a|;
    if i >= n {
      assert a[..n] == a;
    } else if j == i {
      PickKeeps(a, i);
      InsertionArraySorts(a, i, i - 1, a[i]);
    } else if j >= 0 && a[j] > key {
      ShiftKeeps(a, i, j, key);
      InsertionArraySorts(a[j + 1 := a[j]], i, j - 1, key);
    } else {
      InsertKeeps(a, i, j, key);
      InsertionArraySorts(a[j + 1 := key], i + 1, i + 1, 0);
    }
  }

  // ------------------------------------------------------------ the trace

  /** The trace opens with the input and closes with its ascending sort;
      highlights and sorted marks run parallel to the snapshots, but there is
      one extra description per pass; each pass adds between 1 and `1 + i`
      snapshots. */
  lemma {:induction false} InsertionSortEnds(input: seq<int>)
    ensures var t := InsertionSortTrace(input);
            var n := |input|;
            OpensWith(t, input) && ClosesWith(t, input) && Aligned(t) &&
            |t.descriptions| == |t.steps| + Passes(n) &&
            2 + Passes(n) <= |t.steps| && 2 * |t.steps| <= 2 * (2 + Passes(n)) + n * (n - 1)
  {
    var r := Initial(input);
    var t := InsertionSortTrace(input);
    InsertionRunOpens(r, input, input, 1, 1, 0);
    InsertionRunShape(r, input, 1, 1, 0);
    InsertionRunCount(r, input, 1, 1, 0);
    InsertionRunLast(r, input, 1, 1, 0);
    InsertionArraySorts(input, 1, 1, 0);
    InsertionArrayPermutes(input, input, 1, 1, 0);
    SortedPermutationIsAscending(input, t.steps[|t.steps| - 1]);
  }

  /** Every snapshot keeps the input's length; every entry between the first
      and the last copies one value a slot right or writes the key into the
      gap (matching the descriptions once the "Picked element" entries are
      set aside); and every insertion snapshot is a permutation of the input. */
  lemma {:induction false} InsertionSortMoves(input: seq<int>)
    ensures var t := InsertionSortTrace(input);
            AllOfLength(t, |input|) && InsertionMoves(t, |t.steps| - 1) && InsertsPermute(t, input)
  {
    var r := Initial(input);
    InsertionRunLengths(r, input, 1, 1, 0);
    assert Snapshotted([InitialArray]) == [InitialArray] by {
      assert [InitialArray][..0] == [];
    }
    InsertionRunMoves(r, [InitialArray], input, 1, 1, 0);
    InsertionRunPermutes(r, input, input, 1, 1, 0);
  }

  /** The indices each entry lists as sorted are a prefix, ascending in that snapshot. */
  lemma {:induction false} InsertionSortPrefixes(input: seq<int>)
    ensures PrefixesSorted(InsertionSortTrace(input))
  {
    InsertionRunPrefixes(Initial(input), input, 1, 1, 0);
  }

  /** Every snapshot recorded by a shift `[j, j + 1]` holds the shifted value
      in both slots, in place of a smaller key that the later insertion puts
      back, so it is not a permutation of the input. */
  lemma {:induction false} InsertionSortShifts(input: seq<int>)
    ensures var t := InsertionSortTrace(input);
            ShiftsDuplicate(t, input) &&
            forall k :: 0 <= k < |t.steps| && |t.highlights[k]| == 2 ==> multiset(t.steps[k]) != multiset(input)
  {
    var t := InsertionSortTrace(input);
    InsertionRunDuplicates(Initial(input), input, input, 1, 1, 0);
    forall k | 0 <= k < |t.steps| && |t.highlights[k]| == 2 ensures multiset(t.steps[k]) != multiset(input) {
      assert ShiftDuplicates(t.steps[k], t.highlights[k], input);
      var j := t.highlights[k][0];
      var key :| Restores(t.steps[k], j, key, input);
      DuplicateNotPermutation(t.steps[k], j, key, input);
    }
  }

  /** The run goes on from where the rest of pass `i` leaves it. */
  lemma {:induction false} PassEndRun(r: SortResult, a: seq<int>, i: int, j: int, key: int)
    requires InsertionPos(|a|, i, j) && i < |a|
    ensures var s := PassEnd(r, a, i, j, key);
            InsertionRun(r, a, i, j, key) == InsertionRun(s.r, s.a, i + 1, i + 1, 0)
    decreases j + 1
  {
    var s := InsertionNext(r, a, i, j, key);
    if s.i == i {
      PassEndRun(s.r, s.a, s.i, s.j, s.key);
    }
  }

  /** The rest of pass `i` only appends to the trace and leaves `a[i+1..]` untouched. */
  lemma {:induction false} PassEndExtends(r: SortResult, a: seq<int>, i: int, j: int, key: int)
    requires InsertionPos(|a|, i, j) && i < |a|
    ensures var s := PassEnd(r, a, i, j, key);
            Extends(r, s.r) && s.a[i + 1..] == a[i + 1..]
    decreases j + 1
  {
    var s := InsertionNext(r, a, i, j, key);
    assert Extends(r, s.r) && s.a[i + 1..] == a[i + 1..];
    if s.i == i {
      PassEndExtends(s.r, s.a, s.i, s.j, s.key);
    }
  }

  /** The rest of pass `i` keeps the held values. */
  lemma {:induction false} PassEndHolds(r: SortResult, a: seq<int>, i: int, j: int, key: int, input: seq<int>)
    requires InsertionPos(|a|, i, j) && i < |a| && Holds(a, i, j, key, input)
    ensures multiset(PassEnd(r, a, i, j, key).a) == multiset(input)
    decreases j + 1
  {
    if j == i {
      assert a[i := a[i]] == a;
      PassEndHolds(Describe(r, PickedElement(a[i])), a, i, i - 1, a[i], input);
    } else if j >= 0 && a[j] > key {
      var a' := a[j + 1 := a[j]];
      ShiftHolds(a, i, j, key, input);
      PassEndHolds(Record(r, a', [j, j + 1], Shifted(a'[j], j + 1), Range(i)), a', i, j - 1, key, input);
    }
  }

  /** From the order invariant, the rest of pass `i` leaves `a[..i+1]` ascending. */
  lemma {:induction false} PassEndSorts(r: SortResult, a: seq<int>, i: int, j: int, key: int)
    requires InsertionPos(|a|, i, j) && i < |a| && InsertionOrder(a, i, j, key)
    ensures Sorted(PassEnd(r, a, i, j, key).a[..i + 1])
    decreases j + 1
  {
    var s := InsertionNext(r, a, i, j, key);
    if j == i {
      PickKeeps(a, i);
    } else if j >= 0 && a[j] > key {
      ShiftKeeps(a, i, j, key);
    } else {
      InsertKeeps(a, i, j, key);
    }
    if s.i == i {
      PassEndSorts(s.r, s.a, s.i, s.j, s.key);
    }
  }

  /** Pass `i` as a whole: the trace only grows, `a[i+1..]` is untouched, the
      values are kept, and an ascending `a[..i]` becomes an ascending `a[..i+1]`. */
  lemma {:induction false} PassEndFacts(r: SortResult, a: seq<int>, i: int)
    requires 1 <= i < |a|
    ensures var s := PassEnd(r, a, i, i, 0);
            Extends(r, s.r) && s.a[i + 1..] == a[i + 1..] && multiset(s.a) == multiset(a) &&
            (Sorted(a[..i]) ==> Sorted(s.a[..i + 1]))
  {
    PassEndExtends(r, a, i, i, 0);
    PassEndHolds(r, a, i, i, 0, a);
    if Sorted(a[..i]) {
      PassEndSorts(r, a, i, i, 0);
    }
  }

  /** On `[2, 1]` the shift snapshot `[2, 2]` is not a permutation of the input,
      and the description at index 1 is the "Picked element" entry, not the
      shift's. */
  lemma {:induction false} InsertionSortExample()
    ensures var t := InsertionSortTrace([2, 1]);
            t.steps == [[2, 1], [2, 2], [1, 2], [1, 2]] &&
            t.highlights == [[], [0, 1], [0], []] &&
            t.descriptions == [InitialArray, PickedElement(1), Shifted(2, 1), Inserted(1, 0), FullySorted] &&
            t.sortedIndices == [[], [0], [0, 1], [0, 1]] &&
            multiset(t.steps[1]) != multiset([2, 1])
  {
    assert Range(1) == [0] && Range(2) == [0, 1];
    var r0 := Initial([2, 1]);
    var r1 := Describe(r0, PickedElement(1));
    var r2 := Record(r1, [2, 2], [0, 1], Shifted(2, 1), [0]);
    var r3 := Record(r2, [1, 2], [0], Inserted(1, 0), [0, 1]);
    assert [2, 1][1 := 2] == [2, 2] && [2, 2][0 := 1] == [1, 2];
    assert InsertionRun(r0, [2, 1], 1, 1, 0) == InsertionRun(r1, [2, 1], 1, 0, 1);
    assert InsertionRun(r1, [2, 1], 1, 0, 1) == InsertionRun(r2, [2, 2], 1, -1, 1);
    assert InsertionRun(r2, [2, 2], 1, -1, 1) == InsertionRun(r3, [1, 2], 2, 2, 0);
    assert InsertionRun(r3, [1, 2], 2, 2, 0) == Record(r3, [1, 2], [], FullySorted, [0, 1]);
    assert multiset([2, 2])[1] == 0;
  }

  /** One turn of the outer loop: pick `arr[i]`, shift the larger values of
      the sorted prefix one slot right, and write the key into the gap. The
      trace only grows, `arr[i+1..]` is untouched, the values are kept, and an
      ascending `arr[..i]` becomes an ascending `arr[..i+1]`. */
  method InsertPass(arr: array<int>, i: int, r: SortResult) returns (r': SortResult)
    requires 1 <= i < arr.Length
    modifies arr
    ensures var s := PassEnd(r, old(arr[..]), i, i, 0); r' == s.r && arr[..] == s.a
    ensures Extends(r, r') && arr[..][i + 1..] == old(arr[..])[i + 1..]
    ensures multiset(arr[..]) == multiset(old(arr[..]))
    ensures Sorted(old(arr[..])[..i]) ==> Sorted(arr[..][..i + 1])
  {
    ghost var a0 := arr[..];
    var key := arr[i];
    var j := i - 1;
    r' := Describe(r, PickedElement(key));
    assert PassEnd(r, a0, i, i, 0) == PassEnd(r', a0, i, j, key);
    while j >= 0 && arr[j] > key
      invariant -1 <= j < i
      invariant PassEnd(r', arr[..], i, j, key) == PassEnd(r, a0, i, i, 0)
    {
      ghost var before := PassEnd(r', arr[..], i, j, key);
      arr[j + 1] := arr[j];
      r' := Record(r', arr[..], [j, j + 1], Shifted(arr[j], j + 1), Range(i));
      j := j - 1;
      assert before == PassEnd(r', arr[..], i, j, key);
    }
    arr[j + 1] := key;
    r' := Record(r', arr[..], [j + 1], Inserted(key, j + 1), Range(i + 1));
    PassEndFacts(r, a0, i);
  }

  method ComputeInsertionSortSteps(input: seq<int>) returns (r: SortResult)
    ensures r == InsertionSortTrace(input)
  {
    var n := |input|;
    var arr := new int[n](k requires 0 <= k < n => input[k]);
    assert arr[..] == input;
    r := Initial(arr[..]);
    var i := 1;
    while i < n
      invariant 1 <= i && (i <= n || i == 1)
      invariant InsertionRun(r, arr[..], i, i, 0) == InsertionSortTrace(input)
    {
      PassEndRun(r, arr[..], i, i, 0);
      r := InsertPass(arr, i, r);
      i := i + 1;
    }
    r := Record(r, arr[..], [], FullySorted, Range(n));
  }
}
