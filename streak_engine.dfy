/**
 * `calculateStreak` of lib/streak-tracker.ts: from one activity's logs to its
 * streak record. The clock reads of the source are the `today` and `now`
 * parameters; dates are day numbers.
 */
module StreakEngine {
  import opened Options
  import opened Types
  import opened Schedule
  import opened Badges
  import opened StreakWalk

  /** `StreakData`: the per-activity streak record. */
  datatype StreakData = StreakData(
    habitId: string,
    currentStreak: nat,
    longestStreak: nat,
    lastLogDate: Option<int>,
    streakStartDate: Option<int>,
    totalCompletions: nat,
    badges: seq<Badge>)

  /**
   * The all-zero record: what `calculateStreak` returns for an activity with
   * no logs, and what `loadStreakData` returns when nothing is stored.
   */
  function ZeroStreakData(habitId: string): (r: StreakData)
    ensures r.habitId == habitId
    ensures r.currentStreak == 0 && r.longestStreak == 0 && r.totalCompletions == 0
    ensures r.lastLogDate == None && r.streakStartDate == None && r.badges == []
  {
    StreakData(habitId, 0, 0, None, None, 0, [])
  }

  /** `logs.filter(log => log.activityId === habitId)`. */
  function FilterByActivity(logs: seq<ActivityLog>, habitId: string): (r: seq<ActivityLog>)
    ensures forall l :: l in r ==> l.activityId == habitId
    ensures forall l: ActivityLog :: l.activityId == habitId ==> multiset(r)[l] == multiset(logs)[l]
    decreases |logs|
  {
    if logs == [] then []
    else
      var last := logs[|logs| - 1];
      assert logs == logs[..|logs| - 1] + [last];
      FilterByActivity(logs[..|logs| - 1], habitId) + (if last.activityId == habitId then [last] else [])
  }

  /** The positions of the logs that belong to the activity. */
  ghost function MatchingPositions(logs: seq<ActivityLog>, habitId: string): set<int> {
    set i | 0 <= i < |logs| && logs[i].activityId == habitId
  }

  /** The filter keeps one entry per matching log, same-day repeats included. */
  lemma {:induction false} FilterCountsMatchingLogs(logs: seq<ActivityLog>, habitId: string)
    ensures |FilterByActivity(logs, habitId)| == |MatchingPositions(logs, habitId)|
    decreases |logs|
  {
    if logs != [] {
      var n := |logs|;
      FilterCountsMatchingLogs(logs[..n - 1], habitId);
      MatchingPositionsSnoc(logs, habitId);
    }
  }

  /** Appending a log adds its position exactly when it matches. */
  lemma MatchingPositionsSnoc(logs: seq<ActivityLog>, habitId: string)
    requires logs != []
    ensures var n := |logs|;
      MatchingPositions(logs, habitId) ==
        MatchingPositions(logs[..n - 1], habitId) + (if logs[n - 1].activityId == habitId then {n - 1} else {})
    ensures |logs| - 1 !in MatchingPositions(logs[..|logs| - 1], habitId)
  {
    var n := |logs|;
    var front := logs[..n - 1];
    forall i | 0 <= i < n - 1
      ensures logs[i] == front[i]
    {
    }
  }

  /** Logs in ascending date order. */
  ghost predicate SortedByDate(s: seq<ActivityLog>) {
    forall i, j :: 0 <= i < j < |s| ==> s[i].date <= s[j].date
  }

  /** Puts `l` into a date-sorted list after every log of the same or an earlier date. */
  function InsertByDate(l: ActivityLog, s: seq<ActivityLog>): (r: seq<ActivityLog>)
    requires SortedByDate(s)
    ensures SortedByDate(r)
    ensures multiset(r) == multiset(s) + multiset{l}
  {
    if s == [] then [l]
    else if l.date < s[0].date then [l] + s
    else
      var rest := InsertByDate(l, s[1..]);
      assert s == [s[0]] + s[1..];
      FirstIsEarliest(l, s, rest);
      [s[0]] + rest
  }

  /** The head of a sorted list is no later than `l` nor than anything in its tail. */
  lemma FirstIsEarliest(l: ActivityLog, s: seq<ActivityLog>, rest: seq<ActivityLog>)
    requires |s| >= 1 && SortedByDate(s) && s[0].date <= l.date
    requires SortedByDate(rest) && multiset(rest) == multiset(s[1..]) + multiset{l}
    ensures SortedByDate([s[0]] + rest)
  {
    forall j | 0 <= j < |rest|
      ensures s[0].date <= rest[j].date
    {
      assert rest[j] in multiset(rest);
      if rest[j] != l {
        assert rest[j] in multiset(s[1..]);
        var k :| 0 <= k < |s[1..]| && s[1..][k] == rest[j];
        assert s[k + 1] == rest[j];
      }
    }
    var r := [s[0]] + rest;
    forall i, j | 0 <= i < j < |r|
      ensures r[i].date <= r[j].date
    {
      assert r[j] == rest[j - 1];
      if i > 0 {
        assert r[i] == rest[i - 1];
      }
    }
  }

  /**
   * The ascending sort by date (`sort` with the date-difference comparator),
   * as a stable insertion sort.
   */
  function SortByDate(s: seq<ActivityLog>): (r: seq<ActivityLog>)
    ensures SortedByDate(r)
    ensures multiset(r) == multiset(s)
  {
    if s == [] then []
    else
      assert s == s[..|s| - 1] + [s[|s| - 1]];
      InsertByDate(s[|s| - 1], SortByDate(s[..|s| - 1]))
  }

  /** The day numbers of a list of logs, in the same order. */
  function DatesOf(s: seq<ActivityLog>): (d: seq<int>)
    ensures |d| == |s|
    ensures forall i :: 0 <= i < |s| ==> d[i] == s[i].date
  {
    seq(|s|, i requires 0 <= i < |s| => s[i].date)
  }

  /** The activity has a log dated `day` (`activityId` matching). */
  ghost predicate LoggedOn(logs: seq<ActivityLog>, habitId: string, day: int) {
    exists l :: l in logs && l.activityId == habitId && l.date == day
  }

  /** The activity's logs, filtered and sorted as the engine walks them. */
  function HabitLogs(logs: seq<ActivityLog>, habitId: string): seq<ActivityLog> {
    SortByDate(FilterByActivity(logs, habitId))
  }

  /** The walked logs are sorted by date and are exactly the activity's logs. */
  lemma HabitLogsAreMatchingLogs(logs: seq<ActivityLog>, habitId: string)
    ensures SortedByDate(HabitLogs(logs, habitId))
    ensures forall l :: l in HabitLogs(logs, habitId) <==> l in logs && l.activityId == habitId
  {
    var f := FilterByActivity(logs, habitId);
    var hl := HabitLogs(logs, habitId);
    assert multiset(hl) == multiset(f);
    forall l
      ensures l in hl <==> l in logs && l.activityId == habitId
    {
      if l in hl {
        assert l in multiset(f);
        assert multiset(f)[l] == multiset(logs)[l];
        assert l in multiset(logs);
      }
      if l in logs && l.activityId == habitId {
        assert multiset(f)[l] == multiset(logs)[l];
        assert l in multiset(logs);
        assert l in multiset(hl);
      }
    }
  }

  /** The walked dates are ascending, and are exactly the activity's logged days. */
  lemma WalkedDatesAreLoggedDays(logs: seq<ActivityLog>, habitId: string)
    ensures Sorted(DatesOf(HabitLogs(logs, habitId)))
    ensures forall x :: x in DatesOf(HabitLogs(logs, habitId)) <==> LoggedOn(logs, habitId, x)
  {
    var hl := HabitLogs(logs, habitId);
    var d := DatesOf(hl);
    HabitLogsAreMatchingLogs(logs, habitId);
    forall x
      ensures x in d <==> LoggedOn(logs, habitId, x)
    {
      if x in d {
        var i :| 0 <= i < |d| && d[i] == x;
        assert hl[i] in hl;
      }
      if LoggedOn(logs, habitId, x) {
        var l :| l in logs && l.activityId == habitId && l.date == x;
        var i :| 0 <= i < |hl| && hl[i] == l;
        assert d[i] == x;
      }
    }
  }

  /**
   * The record `calculateStreak` produces. The tail run is live when the
   * latest log is from today, or from yesterday and today is scheduled;
   * otherwise the current streak is 0. Badges follow the current streak.
   */
  function StreakOf(habitId: string, logs: seq<ActivityLog>, habit: Activity, today: Today, now: int): StreakData {
    var habitLogs := HabitLogs(logs, habitId);
    if |habitLogs| == 0 then ZeroStreakData(habitId)
    else StreakOfWalk(habitId, DatesOf(habitLogs), habit, today, now)
  }

  /** The record for a non-empty ascending list of walked dates. */
  function StreakOfWalk(habitId: string, d: seq<int>, habit: Activity, today: Today, now: int): StreakData
    requires |d| >= 1
  {
      var n := |d|;
      var daysSinceLastLog := today.day - d[n - 1];
      var live := daysSinceLastLog == 0 || (daysSinceLastLog == 1 && ShouldHabitLogToday(habit, today));
      var current := if live then RunLength(d, n) else 0;
      StreakData(
        habitId,
        current,
        Max(ClosedLongest(d, n), RunLength(d, n)),
        Some(d[n - 1]),
        if live then Some(RunStart(d, n)) else None,
        n,
        UnlockedBadges(current, now))
  }

  /** The fields of the walk's record, one by one. */
  lemma WalkRecordFields(habitId: string, d: seq<int>, habit: Activity, today: Today, now: int)
    requires |d| >= 1
    ensures var r := StreakOfWalk(habitId, d, habit, today, now);
      var n := |d|;
      var live := today.day - d[n - 1] == 0 || (today.day - d[n - 1] == 1 && ShouldHabitLogToday(habit, today));
      && r.habitId == habitId
      && r.currentStreak == (if live then RunLength(d, n) else 0)
      && r.longestStreak == Max(ClosedLongest(d, n), RunLength(d, n))
      && r.lastLogDate == Some(d[n - 1])
      && r.streakStartDate == (if live then Some(RunStart(d, n)) else None)
      && r.totalCompletions == n
      && r.badges == UnlockedBadges(r.currentStreak, now)
  {
  }

  /**
   * The loop of `calculateStreak` over the sorted logs: the run it ends in
   * (`tempStreak`, `tempStreakStart`) and the longest run closed by a gap
   * (`longestStreak`).
   */
  method WalkRuns(habitLogs: seq<ActivityLog>) returns (tempStreak: nat, tempStreakStart: int, longestStreak: nat)
    requires |habitLogs| >= 1
    ensures tempStreak == RunLength(DatesOf(habitLogs), |habitLogs|)
    ensures tempStreakStart == RunStart(DatesOf(habitLogs), |habitLogs|)
    ensures longestStreak == ClosedLongest(DatesOf(habitLogs), |habitLogs|)
  {
    ghost var d := DatesOf(habitLogs);
    longestStreak := 0;
    tempStreak := 1;
    tempStreakStart := habitLogs[0].date;
    for i := 1 to |habitLogs|
      invariant tempStreak == RunLength(d, i)
      invariant tempStreakStart == RunStart(d, i)
      invariant longestStreak == ClosedLongest(d, i)
    {
      var dayDiff := habitLogs[i].date - habitLogs[i - 1].date;
      if dayDiff == 1 {
        tempStreak := tempStreak + 1;
      } else if dayDiff > 1 {
        if tempStreak > longestStreak {
          longestStreak := tempStreak;
        }
        tempStreak := 1;
        tempStreakStart := habitLogs[i].date;
      }
    }
  }

  /** `calculateStreak`: filter, sort, walk the dates, then decide liveness. */
  method CalculateStreak(habitId: string, logs: seq<ActivityLog>, habit: Activity, today: Today, now: int)
    returns (r: StreakData)
    ensures r == StreakOf(habitId, logs, habit, today, now)
  {
    var habitLogs := HabitLogs(logs, habitId);
    var currentStreak: nat := 0;
    var longestStreak: nat := 0;
    var streakStartDate: Option<int> := None;
    var lastLogDate: Option<int> := None;

    if |habitLogs| == 0 {
      return ZeroStreakData(habitId);
    }

    var shouldLogToday := ShouldHabitLogToday(habit, today);

    ghost var d := DatesOf(habitLogs);
    var tempStreak, tempStreakStart;
    tempStreak, tempStreakStart, longestStreak := WalkRuns(habitLogs);

    lastLogDate := Some(habitLogs[|habitLogs| - 1].date);
    var daysSinceLastLog := today.day - habitLogs[|habitLogs| - 1].date;
    ghost var live := daysSinceLastLog == 0 || (daysSinceLastLog == 1 && shouldLogToday);
    ghost var expected := StreakOfWalk(habitId, d, habit, today, now);
    WalkRecordFields(habitId, d, habit, today, now);

    if daysSinceLastLog == 0 || (daysSinceLastLog == 1 && shouldLogToday) {
      currentStreak := tempStreak;
      streakStartDate := Some(tempStreakStart);
    } else if daysSinceLastLog > 1 {
      if tempStreak > longestStreak {
        longestStreak := tempStreak;
      }
      currentStreak := 0;
      streakStartDate := None;
    }

    var badges := UnlockedBadges(currentStreak, now);
    r := StreakData(habitId, currentStreak, Max(longestStreak, tempStreak), lastLogDate,
                    streakStartDate, |habitLogs|, badges);
    assert r == expected;
  }

  /** With no log for the activity the record is the zero record, and only then. */
  lemma NoLogsGivesZeroRecord(habitId: string, logs: seq<ActivityLog>, habit: Activity, today: Today, now: int)
    ensures (forall l :: l in logs ==> l.activityId != habitId) <==>
      StreakOf(habitId, logs, habit, today, now) == ZeroStreakData(habitId)
  {
    var f := FilterByActivity(logs, habitId);
    if forall l :: l in logs ==> l.activityId != habitId {
      assert forall l :: l in f ==> l in multiset(logs);
    } else {
      var l :| l in logs && l.activityId == habitId;
      assert multiset(f)[l] == multiset(logs)[l];
      assert multiset(HabitLogs(logs, habitId)) == multiset(f);
      assert l in multiset(HabitLogs(logs, habitId));
    }
  }

  /** Every matching log counts once towards the total, same-day repeats included. */
  lemma TotalCompletionsCountsEveryLog(habitId: string, logs: seq<ActivityLog>, habit: Activity, today: Today, now: int)
    ensures StreakOf(habitId, logs, habit, today, now).totalCompletions == |MatchingPositions(logs, habitId)|
  {
    FilterCountsMatchingLogs(logs, habitId);
    var f := FilterByActivity(logs, habitId);
    assert |multiset(HabitLogs(logs, habitId))| == |multiset(f)|;
  }

  /** Every day from `x` to `x + k - 1` has a log of the activity. */
  ghost predicate LoggedStretch(logs: seq<ActivityLog>, habitId: string, x: int, k: int) {
    forall y :: x <= y < x + k ==> LoggedOn(logs, habitId, y)
  }

  /** The activity has at least one log. */
  ghost predicate HasLogs(logs: seq<ActivityLog>, habitId: string) {
    exists l :: l in logs && l.activityId == habitId
  }

  /** Walked blocks and logged stretches are the same thing. */
  lemma BlocksAreStretches(logs: seq<ActivityLog>, habitId: string)
    ensures forall x, k :: ConsecutiveBlock(DatesOf(HabitLogs(logs, habitId)), x, k) <==> LoggedStretch(logs, habitId, x, k)
  {
    WalkedDatesAreLoggedDays(logs, habitId);
  }

  /**
   * The longest streak is the length of the longest stretch of consecutive
   * logged days: one stretch is that long and none is longer. So it is at
   * least 1 once there is a log, and never below the current streak.
   */
  lemma LongestStreakIsLongestStretch(habitId: string, logs: seq<ActivityLog>, habit: Activity, today: Today, now: int)
    requires HasLogs(logs, habitId)
    ensures StreakOf(habitId, logs, habit, today, now).longestStreak >= 1
    ensures StreakOf(habitId, logs, habit, today, now).longestStreak >= StreakOf(habitId, logs, habit, today, now).currentStreak
    ensures exists x :: LoggedStretch(logs, habitId, x, StreakOf(habitId, logs, habit, today, now).longestStreak)
    ensures forall x, k :: k >= 1 && LoggedStretch(logs, habitId, x, k) ==>
      k <= StreakOf(habitId, logs, habit, today, now).longestStreak
  {
    NoLogsGivesZeroRecord(habitId, logs, habit, today, now);
    var d := DatesOf(HabitLogs(logs, habitId));
    WalkedDatesAreLoggedDays(logs, habitId);
    BlocksAreStretches(logs, habitId);
    LongestStreakIsLongestBlock(d);
  }

  /**
   * The latest log sets `lastLogDate`. When that log is from today, or from
   * yesterday with today scheduled, the current streak is the stretch of
   * consecutive logged days that ends there, and `streakStartDate` is its
   * first day (the day before it has no log). Any other distance from
   * today (more than a day, yesterday while today is not scheduled, a log
   * in the future) gives 0 and no start date. The badges are those the
   * current streak reaches.
   */
  lemma CurrentStreakIsLiveTailStretch(habitId: string, logs: seq<ActivityLog>, habit: Activity, today: Today, now: int)
    requires HasLogs(logs, habitId)
    ensures var r := StreakOf(habitId, logs, habit, today, now);
      && r.lastLogDate.Some?
      && LoggedOn(logs, habitId, r.lastLogDate.value)
      && (forall y :: LoggedOn(logs, habitId, y) ==> y <= r.lastLogDate.value)
      && r.badges == UnlockedBadges(r.currentStreak, now)
    ensures var r := StreakOf(habitId, logs, habit, today, now);
      var since := today.day - r.lastLogDate.value;
      if since == 0 || (since == 1 && ShouldHabitLogToday(habit, today)) then
        && r.streakStartDate.Some?
        && r.currentStreak >= 1
        && LoggedStretch(logs, habitId, r.streakStartDate.value, r.currentStreak)
        && r.streakStartDate.value + r.currentStreak - 1 == r.lastLogDate.value
        && !LoggedOn(logs, habitId, r.streakStartDate.value - 1)
      else
        r.currentStreak == 0 && r.streakStartDate == None
  {
    NoLogsGivesZeroRecord(habitId, logs, habit, today, now);
    var d := DatesOf(HabitLogs(logs, habitId));
    WalkedDatesAreLoggedDays(logs, habitId);
    BlocksAreStretches(logs, habitId);
    TailRunEndsAtLatestLog(d);
    forall y | LoggedOn(logs, habitId, y)
      ensures y <= d[|d| - 1]
    {
      assert y in d;
    }
  }

  /**
   * A calendar gap ends a run whatever the schedule: if the day before the
   * latest log has no log, a live current streak is exactly 1 (an every
   * Monday, Wednesday and Friday habit never gets past 1).
   */
  lemma SkippedDayBreaksTheRun(habitId: string, logs: seq<ActivityLog>, habit: Activity, today: Today, now: int)
    requires HasLogs(logs, habitId)
    requires StreakOf(habitId, logs, habit, today, now).currentStreak > 0
    requires !LoggedOn(logs, habitId, StreakOf(habitId, logs, habit, today, now).lastLogDate.value - 1)
    ensures StreakOf(habitId, logs, habit, today, now).currentStreak == 1
  {
    CurrentStreakIsLiveTailStretch(habitId, logs, habit, today, now);
  }

  /** The same days have a log in both lists. */
  ghost predicate SameLoggedDays(logs1: seq<ActivityLog>, logs2: seq<ActivityLog>, habitId: string) {
    forall y :: LoggedOn(logs1, habitId, y) <==> LoggedOn(logs2, habitId, y)
  }

  /**
   * Streaks depend only on which days have a log: two log lists with the
   * same logged days give the same current and longest streak, dates and
   * badges; only `totalCompletions` sees same-day repeats.
   */
  lemma StreakDependsOnlyOnLoggedDays(habitId: string, logs1: seq<ActivityLog>, logs2: seq<ActivityLog>,
                                      habit: Activity, today: Today, now: int)
    requires SameLoggedDays(logs1, logs2, habitId)
    ensures var r1, r2 := StreakOf(habitId, logs1, habit, today, now), StreakOf(habitId, logs2, habit, today, now);
      r1 == r2.(totalCompletions := r1.totalCompletions)
  {
    SameLoggedDaysSameHasLogs(logs1, logs2, habitId);
    if HasLogs(logs1, habitId) {
      var d1, d2 := DatesOf(HabitLogs(logs1, habitId)), DatesOf(HabitLogs(logs2, habitId));
      WalkedDatesAreLoggedDays(logs1, habitId);
      WalkedDatesAreLoggedDays(logs2, habitId);
      var l :| l in logs1 && l.activityId == habitId;
      assert l.date in d1;
      WalkDependsOnlyOnDays(d1, d2);
      WalkRecordFields(habitId, d1, habit, today, now);
      WalkRecordFields(habitId, d2, habit, today, now);
    } else {
      NoLogsGivesZeroRecord(habitId, logs1, habit, today, now);
      NoLogsGivesZeroRecord(habitId, logs2, habit, today, now);
    }
  }

  /** Lists with the same logged days either both hold a log of the activity or neither does. */
  lemma SameLoggedDaysSameHasLogs(logs1: seq<ActivityLog>, logs2: seq<ActivityLog>, habitId: string)
    requires SameLoggedDays(logs1, logs2, habitId)
    ensures HasLogs(logs1, habitId) <==> HasLogs(logs2, habitId)
  {
    if HasLogs(logs1, habitId) {
      var l :| l in logs1 && l.activityId == habitId;
      assert LoggedOn(logs1, habitId, l.date);
    }
    if HasLogs(logs2, habitId) {
      var l :| l in logs2 && l.activityId == habitId;
      assert LoggedOn(logs2, habitId, l.date);
    }
  }
}
