/**
 * The run walk of `calculateStreak` (lib/streak-tracker.ts), stated over the
 * day numbers of one activity's logs in ascending order. `RunLength`,
 * `RunStart` and `ClosedLongest` give the walk's variables `tempStreak`,
 * `tempStreakStart` and `longestStreak` after it has seen the first `n`
 * dates; the lemmas say what those values mean as calendar facts.
 */
module StreakWalk {

  /** Day numbers in ascending order, repeats allowed. */
  ghost predicate Sorted(d: seq<int>) {
    forall i, j :: 0 <= i < j < |d| ==> d[i] <= d[j]
  }

  function Max(a: int, b: int): int {
    if a >= b then a else b
  }

  /**
   * Length of the run the walk is in after seeing `d[..n]`: a one-day gap
   * extends it, a longer gap starts a new run of one, a same-day log
   * changes nothing.
   */
  function RunLength(d: seq<int>, n: nat): (len: nat)
    requires 1 <= n <= |d|
    ensures len >= 1
  {
    if n == 1 then 1
    else
      var gap := d[n - 1] - d[n - 2];
      if gap == 1 then RunLength(d, n - 1) + 1
      else if gap > 1 then 1
      else RunLength(d, n - 1)
  }

  /** First day of the run the walk is in after seeing `d[..n]`. */
  function RunStart(d: seq<int>, n: nat): int
    requires 1 <= n <= |d|
  {
    if n == 1 then d[0]
    else
      var gap := d[n - 1] - d[n - 2];
      if gap > 1 then d[n - 1] else RunStart(d, n - 1)
  }

  /** Longest run closed by a gap of more than a day within `d[..n]`, or 0. */
  function ClosedLongest(d: seq<int>, n: nat): nat
    requires 1 <= n <= |d|
  {
    if n == 1 then 0
    else
      var gap := d[n - 1] - d[n - 2];
      if gap > 1 then Max(ClosedLongest(d, n - 1), RunLength(d, n - 1))
      else ClosedLongest(d, n - 1)
  }

  /** The largest run length the walk reaches while seeing `d[..n]`. */
  function MaxRun(d: seq<int>, n: nat): nat
    requires 1 <= n <= |d|
  {
    if n == 1 then RunLength(d, 1) else Max(MaxRun(d, n - 1), RunLength(d, n))
  }

  /** Every day from `x` to `x + k - 1` has a log. */
  ghost predicate ConsecutiveBlock(d: seq<int>, x: int, k: int) {
    forall y :: x <= y < x + k ==> y in d
  }

  /**
   * The run after `d[..n]` is a block of consecutive logged days ending at
   * `d[n - 1]`, as long as the walk counted, and the day before it has no
   * log anywhere in `d`: the run cannot be extended backwards.
   */
  lemma {:induction false} RunIsMaximalBlock(d: seq<int>, n: nat)
    requires Sorted(d) && 1 <= n <= |d|
    ensures RunStart(d, n) <= d[n - 1]
    ensures RunLength(d, n) == d[n - 1] - RunStart(d, n) + 1
    ensures forall x :: RunStart(d, n) <= x <= d[n - 1] ==> x in d[..n]
    ensures forall k :: 0 <= k < |d| ==> d[k] != RunStart(d, n) - 1
  {
    if n == 1 {
      assert d[..1] == [d[0]];
    } else {
      RunIsMaximalBlock(d, n - 1);
      assert d[..n] == d[..n - 1] + [d[n - 1]];
      var gap := d[n - 1] - d[n - 2];
      if gap > 1 {
        forall k | 0 <= k < |d|
          ensures d[k] != d[n - 1] - 1
        {
          if k < n - 1 {
            assert d[k] <= d[n - 2];
          } else {
            assert d[n - 1] <= d[k];
          }
        }
      }
    }
  }

  /** The walk's run at `d[..n]` as a block: every day of it is logged. */
  lemma RunIsBlock(d: seq<int>, n: nat)
    requires Sorted(d) && 1 <= n <= |d|
    ensures ConsecutiveBlock(d, RunStart(d, n), RunLength(d, n))
  {
    RunIsMaximalBlock(d, n);
    forall y | RunStart(d, n) <= y < RunStart(d, n) + RunLength(d, n)
      ensures y in d
    {
      assert y in d[..n];
    }
  }

  /** `MaxRun` is the largest of the run lengths at `d[..1]` to `d[..n]`. */
  lemma {:induction false} MaxRunIsMaximum(d: seq<int>, n: nat)
    requires 1 <= n <= |d|
    ensures forall m :: 1 <= m <= n ==> RunLength(d, m) <= MaxRun(d, n)
    ensures exists m :: 1 <= m <= n && RunLength(d, m) == MaxRun(d, n)
  {
    if n > 1 {
      MaxRunIsMaximum(d, n - 1);
      if MaxRun(d, n - 1) < RunLength(d, n) {
        assert RunLength(d, n) == MaxRun(d, n);
      } else {
        var m :| 1 <= m <= n - 1 && RunLength(d, m) == MaxRun(d, n - 1);
        assert RunLength(d, m) == MaxRun(d, n);
      }
    } else {
      assert RunLength(d, 1) == MaxRun(d, 1);
    }
  }

  /**
   * What the walk keeps as longest, once the tail run is folded in, is the
   * largest run it ever reached.
   */
  lemma {:induction false} FoldedLongestIsMaxRun(d: seq<int>, n: nat)
    requires 1 <= n <= |d|
    ensures Max(ClosedLongest(d, n), RunLength(d, n)) == MaxRun(d, n)
  {
    if n > 1 {
      FoldedLongestIsMaxRun(d, n - 1);
    }
  }

  /**
   * The longest streak of the walk is the length of the longest block of
   * consecutive logged days: some block is that long, and none is longer.
   */
  lemma LongestStreakIsLongestBlock(d: seq<int>)
    requires Sorted(d) && |d| >= 1
    ensures exists x :: ConsecutiveBlock(d, x, Max(ClosedLongest(d, |d|), RunLength(d, |d|)))
    ensures forall x, k :: k >= 1 && ConsecutiveBlock(d, x, k) ==>
      k <= Max(ClosedLongest(d, |d|), RunLength(d, |d|))
  {
    var n := |d|;
    FoldedLongestIsMaxRun(d, n);
    MaxRunIsMaximum(d, n);
    var m :| 1 <= m <= n && RunLength(d, m) == MaxRun(d, n);
    RunIsBlock(d, m);
    forall x, k | k >= 1 && ConsecutiveBlock(d, x, k)
      ensures k <= MaxRun(d, n)
    {
      BlockFitsInRun(d, x, k);
    }
  }

  /** A block of logged days is no longer than the run the walk reaches at its last day. */
  lemma BlockFitsInRun(d: seq<int>, x: int, k: int)
    requires Sorted(d) && |d| >= 1
    requires k >= 1 && ConsecutiveBlock(d, x, k)
    ensures k <= MaxRun(d, |d|)
  {
    assert x + k - 1 in d;
    var i :| 0 <= i < |d| && d[i] == x + k - 1;
    RunIsMaximalBlock(d, i + 1);
    var s := RunStart(d, i + 1);
    assert s - 1 !in d;
    assert x >= s;
    MaxRunIsMaximum(d, |d|);
  }

  /**
   * The walk's final run is the maximal block of logged days that ends at
   * the latest log.
   */
  lemma TailRunEndsAtLatestLog(d: seq<int>)
    requires Sorted(d) && |d| >= 1
    ensures forall k :: 0 <= k < |d| ==> d[k] <= d[|d| - 1]
    ensures ConsecutiveBlock(d, RunStart(d, |d|), RunLength(d, |d|))
    ensures RunStart(d, |d|) + RunLength(d, |d|) - 1 == d[|d| - 1]
    ensures RunStart(d, |d|) - 1 !in d
  {
    RunIsMaximalBlock(d, |d|);
    RunIsBlock(d, |d|);
  }

  /**
   * The walk sees only which days are logged: two ascending date lists with
   * the same days end on the same day, in the same final run, with the same
   * longest run.
   */
  lemma WalkDependsOnlyOnDays(d1: seq<int>, d2: seq<int>)
    requires Sorted(d1) && Sorted(d2) && |d1| >= 1
    requires forall x :: x in d1 <==> x in d2
    ensures |d2| >= 1
    ensures d1[|d1| - 1] == d2[|d2| - 1]
    ensures RunLength(d1, |d1|) == RunLength(d2, |d2|) && RunStart(d1, |d1|) == RunStart(d2, |d2|)
    ensures Max(ClosedLongest(d1, |d1|), RunLength(d1, |d1|)) == Max(ClosedLongest(d2, |d2|), RunLength(d2, |d2|))
  {
    var n1 := |d1|;
    assert d1[0] in d1;
    assert |d2| >= 1;
    var n2 := |d2|;
    TailRunEndsAtLatestLog(d1);
    TailRunEndsAtLatestLog(d2);
    assert d1[n1 - 1] in d1 && d2[n2 - 1] in d2;
    assert d1[n1 - 1] <= d2[n2 - 1] && d2[n2 - 1] <= d1[n1 - 1];
    SameTailStart(d1, d2);
    SameLongestBlock(d1, d2);
  }

  /** With the same days, the final runs start on the same day. */
  lemma SameTailStart(d1: seq<int>, d2: seq<int>)
    requires Sorted(d1) && Sorted(d2) && |d1| >= 1 && |d2| >= 1
    requires forall x :: x in d1 <==> x in d2
    requires d1[|d1| - 1] == d2[|d2| - 1]
    ensures RunStart(d1, |d1|) == RunStart(d2, |d2|)
  {
    TailRunEndsAtLatestLog(d1);
    TailRunEndsAtLatestLog(d2);
    var s1, s2 := RunStart(d1, |d1|), RunStart(d2, |d2|);
    assert s1 - 1 !in d2 && s2 - 1 !in d1;
    assert s1 <= s2 - 1 + 1;
    assert s2 <= s1 - 1 + 1;
  }

  /** With the same days, the longest runs are equally long. */
  lemma SameLongestBlock(d1: seq<int>, d2: seq<int>)
    requires Sorted(d1) && Sorted(d2) && |d1| >= 1 && |d2| >= 1
    requires forall x :: x in d1 <==> x in d2
    ensures Max(ClosedLongest(d1, |d1|), RunLength(d1, |d1|)) == Max(ClosedLongest(d2, |d2|), RunLength(d2, |d2|))
  {
    var l1 := Max(ClosedLongest(d1, |d1|), RunLength(d1, |d1|));
    var l2 := Max(ClosedLongest(d2, |d2|), RunLength(d2, |d2|));
    LongestStreakIsLongestBlock(d1);
    LongestStreakIsLongestBlock(d2);
    var x1 :| ConsecutiveBlock(d1, x1, l1);
    var x2 :| ConsecutiveBlock(d2, x2, l2);
    assert ConsecutiveBlock(d2, x1, l1) && ConsecutiveBlock(d1, x2, l2);
  }
}
