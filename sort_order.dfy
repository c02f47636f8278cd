/** Ascending order on integer sequences: the reference against which the
    four sort traces are checked (the test harness compares the last snapshot
    with `[...arr].sort((a, b) => a - b)`). */
module SortOrder {

  predicate Sorted(s: seq<int>) {
    forall i, j :: 0 <= i < j < |s| ==> s[i] <= s[j]
  }

  /** `s` with the entries at `i` and `j` exchanged (a destructuring swap). */
  function Swap(s: seq<int>, i: int, j: int): (r: seq<int>)
    requires 0 <= i < |s| && 0 <= j < |s|
    ensures |r| == |s| && r[i] == s[j] && r[j] == s[i]
    ensures forall k {:trigger r[k]} :: 0 <= k < |s| && k != i && k != j ==> r[k] == s[k]
  {
    s[i := s[j]][j := s[i]]
  }

  lemma {:induction false} SwapPermutes(s: seq<int>, i: int, j: int)
    requires 0 <= i < |s| && 0 <= j < |s|
    ensures multiset(Swap(s, i, j)) == multiset(s)
  {
  }

  /** `[0, 1, ..., m - 1]`, the index list `Array.from({ length: m }, (_, k) => k)`. */
  function Range(m: nat): (r: seq<int>)
    ensures |r| == m && forall k :: 0 <= k < m ==> r[k] == k
  {
    seq(m, k => k)
  }

  /** `x` placed in front of the first element of `s` that is not smaller. */
  function Insert(x: int, s: seq<int>): seq<int> {
    if s == [] || x <= s[0] then [x] + s else [s[0]] + Insert(x, s[1..])
  }

  /** The ascending sort of `s`, defined independently of the four traced algorithms. */
  function Ascending(s: seq<int>): seq<int> {
    if s == [] then [] else Insert(s[0], Ascending(s[1..]))
  }

  lemma {:induction false} InsertPermutes(x: int, s: seq<int>)
    ensures multiset(Insert(x, s)) == multiset(s) + multiset{x} && |Insert(x, s)| == |s| + 1
  {
    if s != [] && x > s[0] {
      InsertPermutes(x, s[1..]);
      assert s == [s[0]] + s[1..];
    }
  }

  lemma {:induction false} InsertSorted(x: int, s: seq<int>)
    requires Sorted(s)
    ensures Sorted(Insert(x, s))
  {
    if s != [] && x > s[0] {
      InsertSorted(x, s[1..]);
      InsertPermutes(x, s[1..]);
      var t := Insert(x, s[1..]);
      forall k | 0 <= k < |t| ensures s[0] <= t[k] {
        assert t[k] in multiset(s[1..]) + multiset{x};
      }
    }
  }

  /** The reference sort yields an ascending permutation of its input. */
  lemma {:induction false} AscendingCorrect(s: seq<int>)
    ensures Sorted(Ascending(s)) && multiset(Ascending(s)) == multiset(s)
    ensures |Ascending(s)| == |s|
  {
    if s != [] {
      AscendingCorrect(s[1..]);
      InsertSorted(s[0], Ascending(s[1..]));
      InsertPermutes(s[0], Ascending(s[1..]));
      assert s == [s[0]] + s[1..];
    }
  }

  /** An ascending permutation is unique: two sorted sequences with the same
      multiset of values are equal. */
  lemma {:induction false} SortedUnique(a: seq<int>, b: seq<int>)
    requires Sorted(a) && Sorted(b) && multiset(a) == multiset(b)
    ensures a == b
  {
    assert |a| == |multiset(a)| == |multiset(b)| == |b|;
    if a != [] {
      SortedHeads(a, b);
      var a', b' := a[1..], b[1..];
      TailMultiset(a);
      TailMultiset(b);
      assert multiset(a') == multiset(b');
      SortedTail(a);
      SortedTail(b);
      SortedUnique(a', b');
      forall j | 0 <= j < |a| ensures a[j] == b[j] {
        if j > 0 { assert a[j] == a'[j - 1] && b[j] == b'[j - 1]; }
      }
    }
  }

  lemma {:induction false} SortedHeads(a: seq<int>, b: seq<int>)
    requires Sorted(a) && Sorted(b) && multiset(a) == multiset(b) && a != [] && b != []
    ensures a[0] == b[0]
  {
    assert a[0] in multiset(b) && b[0] in multiset(a);
    var i :| 0 <= i < |b| && b[i] == a[0];
    var k :| 0 <= k < |a| && a[k] == b[0];
    assert a[0] <= a[k] && b[0] <= b[i];
  }

  lemma {:induction false} SortedTail(s: seq<int>)
    requires s != [] && Sorted(s)
    ensures Sorted(s[1..])
  {
    forall i, j | 0 <= i < j < |s| - 1 ensures s[1..][i] <= s[1..][j] {
      assert s[1..][i] == s[i + 1] && s[1..][j] == s[j + 1];
    }
  }

  lemma {:induction false} TailMultiset(s: seq<int>)
    requires s != []
    ensures multiset(s[1..]) == multiset(s) - multiset{s[0]}
  {
    assert s == [s[0]] + s[1..];
  }

  /** Every sorted permutation of `s` is the reference sort of `s`. */
  lemma {:induction false} SortedPermutationIsAscending(s: seq<int>, t: seq<int>)
    requires Sorted(t) && multiset(t) == multiset(s)
    ensures t == Ascending(s)
  {
    AscendingCorrect(s);
    SortedUnique(t, Ascending(s));
  }

  /** `m` is the first position of a minimum of `s[i..]`: what a scan that
      replaces its candidate only on a strictly smaller value finds. */
  predicate IsFirstMin(s: seq<int>, i: int, m: int) {
    0 <= i <= m < |s| &&
    (forall t :: i <= t < |s| ==> s[m] <= s[t]) &&
    (forall t :: i <= t < m ==> s[m] < s[t])
  }

  lemma {:induction false} FirstMinUnique(s: seq<int>, i: int, m1: int, m2: int)
    requires IsFirstMin(s, i, m1) && IsFirstMin(s, i, m2)
    ensures m1 == m2
  {
    assert s[m1] == s[m2];
  }
}
