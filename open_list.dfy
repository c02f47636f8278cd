/** The open list of A* and Greedy best-first search in
    app/utils/PathingAlgorithms.tsx: entries carrying a position, a score and
    the path that reached the position, kept in an array that is sorted by
    score with the stable `Array.prototype.sort` before the head is taken. */
module OpenLists {
  import opened Grids

  /** An open entry: A*'s `{ position, fScore, path }` and Greedy's
      `[position, h, path]`. */
  datatype Scored = Scored(pos: Pos, score: real, path: seq<Pos>)

  /** The positions of the entries, in list order. */
  function Positions(s: seq<Scored>): (r: seq<Pos>)
    ensures |r| == |s| && forall i :: 0 <= i < |s| ==> r[i] == s[i].pos
  {
    seq(|s|, i requires 0 <= i < |s| => s[i].pos)
  }

  /** No position occurs in two entries. */
  predicate Distinct(s: seq<Scored>) {
    forall i, j :: 0 <= i < j < |s| ==> s[i].pos != s[j].pos
  }

  /** Some entry holds position `p`. */
  predicate Holds(s: seq<Scored>, p: Pos) {
    exists i :: 0 <= i < |s| && s[i].pos == p
  }

  /** `x` placed in front of the first entry whose score is not smaller. */
  function InsertByScore(x: Scored, s: seq<Scored>): (r: seq<Scored>)
    ensures |r| == |s| + 1
  {
    if s == [] || x.score <= s[0].score then [x] + s else [s[0]] + InsertByScore(x, s[1..])
  }

  /** `sort((a, b) => a.score - b.score)`: the ascending sort by score that
      keeps entries of equal score in their order (insertion from the back,
      each entry going in front of the equal ones already placed). */
  function SortByScore(s: seq<Scored>): (r: seq<Scored>)
    ensures |r| == |s|
  {
    if s == [] then [] else InsertByScore(s[0], SortByScore(s[1..]))
  }

  lemma {:induction false} InsertByScorePermutes(x: Scored, s: seq<Scored>)
    ensures multiset(InsertByScore(x, s)) == multiset(s) + multiset{x} && |InsertByScore(x, s)| == |s| + 1
  {
    if s != [] && x.score > s[0].score {
      InsertByScorePermutes(x, s[1..]);
      assert s == [s[0]] + s[1..];
    }
  }

  /** The sort only reorders the entries. */
  lemma {:induction false} SortByScorePermutes(s: seq<Scored>)
    ensures multiset(SortByScore(s)) == multiset(s) && |SortByScore(s)| == |s|
  {
    if s != [] {
      SortByScorePermutes(s[1..]);
      InsertByScorePermutes(s[0], SortByScore(s[1..]));
      assert s == [s[0]] + s[1..];
    }
  }

  predicate Ascending(s: seq<Scored>) {
    forall i, j :: 0 <= i < j < |s| ==> s[i].score <= s[j].score
  }

  lemma {:induction false} InsertByScoreAscending(x: Scored, s: seq<Scored>)
    requires Ascending(s)
    ensures Ascending(InsertByScore(x, s))
  {
    if s != [] && x.score > s[0].score {
      InsertByScoreAscending(x, s[1..]);
      InsertByScorePermutes(x, s[1..]);
      var t := InsertByScore(x, s[1..]);
      forall k | 0 <= k < |t| ensures s[0].score <= t[k].score {
        assert t[k] in multiset(s[1..]) + multiset{x};
      }
    }
  }

  /** The sort leaves the scores ascending. */
  lemma {:induction false} SortByScoreAscending(s: seq<Scored>)
    ensures Ascending(SortByScore(s))
  {
    if s != [] {
      SortByScoreAscending(s[1..]);
      InsertByScoreAscending(s[0], SortByScore(s[1..]));
    }
  }

  /** `m` is the first entry, in list order, of least score. */
  predicate IsFirstMin(s: seq<Scored>, m: int) {
    0 <= m < |s| &&
    (forall t :: 0 <= t < |s| ==> s[m].score <= s[t].score) &&
    (forall t :: 0 <= t < m ==> s[m].score < s[t].score)
  }

  /** `shift()` after the sort takes the first entry of least score in the
      list as it stood before the sort. */
  lemma {:induction false} SortByScoreHead(s: seq<Scored>) returns (m: int)
    requires s != []
    ensures IsFirstMin(s, m) && SortByScore(s)[0] == s[m]
  {
    var t := SortByScore(s[1..]);
    SortByScorePermutes(s[1..]);
    if s[1..] == [] {
      m := 0;
    } else {
      var m' := SortByScoreHead(s[1..]);
      if s[0].score <= t[0].score {
        m := 0;
        forall k | 0 <= k < |s| ensures s[0].score <= s[k].score {
          if k > 0 {
            assert s[k] == s[1..][k - 1];
          }
        }
      } else {
        m := m' + 1;
        forall k | 0 <= k < |s| ensures s[m].score <= s[k].score {
          if k > 0 {
            assert s[k] == s[1..][k - 1];
          }
        }
        forall k | 0 <= k < m ensures s[m].score < s[k].score {
          if k > 0 {
            assert s[k] == s[1..][k - 1];
          }
        }
      }
    }
  }

  lemma {:induction false} HoldsPermutes(s: seq<Scored>, t: seq<Scored>, p: Pos)
    requires multiset(s) == multiset(t)
    ensures Holds(s, p) <==> Holds(t, p)
  {
    if Holds(s, p) {
      var i :| 0 <= i < |s| && s[i].pos == p;
      assert s[i] in multiset(t);
    }
    if Holds(t, p) {
      var i :| 0 <= i < |t| && t[i].pos == p;
      assert t[i] in multiset(s);
    }
  }

  lemma {:induction false} InsertByScoreDistinct(x: Scored, s: seq<Scored>)
    requires Distinct(s) && !Holds(s, x.pos)
    ensures Distinct(InsertByScore(x, s))
  {
    if s != [] && x.score > s[0].score {
      forall i | 0 <= i < |s[1..]| ensures s[1..][i].pos != x.pos {
        assert s[1..][i] == s[i + 1];
      }
      InsertByScoreDistinct(x, s[1..]);
      InsertByScorePermutes(x, s[1..]);
      var t := InsertByScore(x, s[1..]);
      forall k | 0 <= k < |t| ensures t[k].pos != s[0].pos {
        assert t[k] in multiset(s[1..]) + multiset{x};
        if t[k] != x {
          var i :| 0 <= i < |s[1..]| && s[1..][i] == t[k];
          assert s[i + 1] == t[k];
        }
      }
    }
  }

  /** The sort keeps the positions distinct. */
  lemma {:induction false} SortByScoreDistinct(s: seq<Scored>)
    requires Distinct(s)
    ensures Distinct(SortByScore(s))
  {
    if s != [] {
      SortByScoreDistinct(s[1..]);
      SortByScorePermutes(s[1..]);
      forall i | 0 <= i < |s[1..]| ensures s[1..][i].pos != s[0].pos {
        assert s[1..][i] == s[i + 1];
      }
      HoldsPermutes(SortByScore(s[1..]), s[1..], s[0].pos);
      InsertByScoreDistinct(s[0], SortByScore(s[1..]));
    }
  }

  /** After `s[k] := v` every entry is `v` or was already there. */
  lemma {:induction false} UpdateMembers(s: seq<Scored>, k: int, v: Scored)
    requires 0 <= k < |s|
    ensures forall x :: x in s[k := v] ==> x == v || x in s
  {
    forall x | x in s[k := v] ensures x == v || x in s {
      var j :| 0 <= j < |s| && s[k := v][j] == x;
      if j != k {
        assert s[j] == x;
      }
    }
  }

  /** Shifting the head of a list without repeated positions leaves none of
      its position behind. */
  lemma {:induction false} DistinctRest(s: seq<Scored>)
    requires |s| > 0 && Distinct(s)
    ensures Distinct(s[1..]) && forall e :: e in s[1..] ==> e.pos != s[0].pos
  {
    forall e | e in s[1..] ensures e.pos != s[0].pos {
      var j :| 0 <= j < |s[1..]| && s[1..][j] == e;
      assert s[j + 1] == e;
    }
  }

  /** `findIndex(item => item.position is p)` from entry `k` on. */
  function FindIndexFrom(s: seq<Scored>, p: Pos, k: nat): (r: int)
    ensures r == -1 || k <= r < |s|
    decreases |s| - k
  {
    if k >= |s| then -1 else if s[k].pos == p then k else FindIndexFrom(s, p, k + 1)
  }

  function FindIndex(s: seq<Scored>, p: Pos): int {
    FindIndexFrom(s, p, 0)
  }

  /** `findIndex` returns the first entry holding `p`, or -1 when none does. */
  lemma {:induction false} FindIndexFromFirst(s: seq<Scored>, p: Pos, k: nat)
    requires forall j :: 0 <= j < k && j < |s| ==> s[j].pos != p
    ensures var r := FindIndexFrom(s, p, k);
            (r == -1 <==> !Holds(s, p)) &&
            (r != -1 ==> 0 <= r < |s| && s[r].pos == p && forall j :: 0 <= j < r ==> s[j].pos != p)
    decreases |s| - k
  {
    if k < |s| && s[k].pos != p {
      FindIndexFromFirst(s, p, k + 1);
    }
  }

  lemma {:induction false} FindIndexFirst(s: seq<Scored>, p: Pos)
    ensures var r := FindIndex(s, p);
            (r == -1 <==> !Holds(s, p)) &&
            (r != -1 ==> 0 <= r < |s| && s[r].pos == p && forall j :: 0 <= j < r ==> s[j].pos != p)
  {
    FindIndexFromFirst(s, p, 0);
  }
}
