/**
 * The schedule test of lib/streak-tracker.ts (`shouldHabitLogToday`): is the
 * activity expected to be done today? The clock read of the source becomes
 * the `Today` parameter.
 */
module Schedule {
  import opened Options
  import opened Types

  /** `Date.getDay()`: 0 is Sunday, 1 is Monday, ..., 6 is Saturday. */
  type Weekday = x: int | 0 <= x <= 6

  /** `Date.getDate()`: the day of the month, from 1. */
  type DayOfMonth = x: int | 1 <= x <= 31 witness 1

  /** `Date.getMonth()`: 0 is January, ..., 11 is December. */
  type MonthIndex = x: int | 0 <= x <= 11

  /**
   * Today as the engine sees it: `day` is the day number of the UTC date
   * (`toISOString`), the other three come from the local calendar.
   */
  datatype Today = Today(day: int, weekday: Weekday, dayOfMonth: DayOfMonth, monthIndex: MonthIndex)

  /** Names of `getDay()`'s results, in its numbering. */
  const GET_DAY_NAMES: seq<string> :=
    ["Sunday", "Monday", "Tuesday", "Wednesday", "Thursday", "Friday", "Saturday"]

  /** Labels of the seven weekday toggles in the habit editor, in flag order. */
  const EDITOR_WEEK_DAYS: seq<string> :=
    ["Monday", "Tuesday", "Wednesday", "Thursday", "Friday", "Saturday", "Sunday"]

  /** The flag index of a weekday in a Monday-first week: Sunday goes last. */
  function MondayIndex(w: Weekday): (i: int)
    ensures 0 <= i <= 6
    ensures EDITOR_WEEK_DAYS[i] == GET_DAY_NAMES[w]
  {
    if w == 0 then 6 else w - 1
  }

  /** `flags[i] === true`: an index outside the array reads `undefined`. */
  predicate FlagSet(flags: seq<bool>, i: int) {
    0 <= i < |flags| && flags[i]
  }

  /** The decimal digits of `n`, as `String(n)` writes them. */
  function Decimal(n: nat): (s: string)
    ensures |s| >= 1
    ensures forall k :: 0 <= k < |s| ==> '0' <= s[k] <= '9'
    decreases n
  {
    if n < 10 then [(48 + n) as char] else Decimal(n / 10) + [(48 + n % 10) as char]
  }

  /** `s.padStart(2, "0")`. */
  function PadTwo(s: string): (r: string)
    ensures |r| == if |s| >= 2 then |s| else 2
    ensures r[|r| - |s|..] == s
    ensures forall k :: 0 <= k < |r| - |s| ==> r[k] == '0'
  {
    if |s| == 0 then "00" else if |s| == 1 then "0" + s else s
  }

  /** The value of a two-character decimal numeral. */
  function TwoDigitValue(t: string): int
    requires |t| == 2
  {
    (t[0] as int - 48) * 10 + (t[1] as int - 48)
  }

  /** Zero-padding a number below 100 gives two digits that read back as it. */
  lemma {:induction false} PadTwoDecimalRoundTrip(n: nat)
    requires n < 100
    ensures |PadTwo(Decimal(n))| == 2
    ensures TwoDigitValue(PadTwo(Decimal(n))) == n
  {
    if n >= 10 {
      assert Decimal(n / 10) == [(48 + n / 10) as char];
    }
  }

  /** Two decimal digits, a dash, two decimal digits. */
  predicate IsMonthDayKey(k: string) {
    && |k| == 5 && k[2] == '-'
    && '0' <= k[0] <= '9' && '0' <= k[1] <= '9' && '0' <= k[3] <= '9' && '0' <= k[4] <= '9'
  }

  /** The `MM-DD` key of today, with month and day zero-padded. */
  function MonthDayKey(monthIndex: MonthIndex, dayOfMonth: DayOfMonth): (key: string)
    ensures IsMonthDayKey(key)
    ensures TwoDigitValue(key[..2]) == monthIndex + 1
    ensures TwoDigitValue(key[3..]) == dayOfMonth
  {
    PadTwoDecimalRoundTrip(monthIndex + 1);
    PadTwoDecimalRoundTrip(dayOfMonth);
    var mm := PadTwo(Decimal(monthIndex + 1));
    var dd := PadTwo(Decimal(dayOfMonth));
    assert (mm + "-" + dd)[..2] == mm;
    assert (mm + "-" + dd)[3..] == dd;
    mm + "-" + dd
  }

  /** Two different calendar positions never share a key. */
  lemma MonthDayKeyInjective(m1: MonthIndex, d1: DayOfMonth, m2: MonthIndex, d2: DayOfMonth)
    requires MonthDayKey(m1, d1) == MonthDayKey(m2, d2)
    ensures m1 == m2 && d1 == d2
  {
    var k1, k2 := MonthDayKey(m1, d1), MonthDayKey(m2, d2);
    assert k1[..2] == k2[..2] && k1[3..] == k2[3..];
  }

  /** `sub` occurs in `text` starting at position `i`. */
  predicate OccursAt(text: string, sub: string, i: int) {
    0 <= i && i + |sub| <= |text| && text[i..i + |sub|] == sub
  }

  /** `text.includes(sub)` on strings: `sub` occurs somewhere in `text`. */
  predicate Contains(text: string, sub: string)
    ensures Contains(text, sub) <==> exists i :: OccursAt(text, sub, i)
    decreases |text|
  {
    if |sub| > |text| then false
    else if text[..|sub|] == sub then assert OccursAt(text, sub, 0); true
    else
      var rest := Contains(text[1..], sub);
      assert forall i :: OccursAt(text[1..], sub, i) ==> OccursAt(text, sub, i + 1);
      assert forall i :: OccursAt(text, sub, i) && i > 0 ==> OccursAt(text[1..], sub, i - 1);
      rest
  }

  /** `shouldHabitLogToday`: whether today is a day the activity is expected. */
  function ShouldHabitLogToday(habit: Activity, today: Today): (r: bool)
    ensures !r ==> habit.frequency in {Weekly, Monthly, Yearly}
  {
    match habit.frequency
    case Daily => true
    case Weekly =>
      (match habit.details.weekly
       case Some(flags) => FlagSet(flags, MondayIndex(today.weekday))
       case None => true)
    case Monthly =>
      (match habit.details.monthly
       case Some(flags) => FlagSet(flags, today.dayOfMonth - 1)
       case None => true)
    case Yearly =>
      (match habit.details.yearly
       // an empty string is falsy and falls through to the default
       case Some(YearText(text)) =>
         text == "" || Contains(text, MonthDayKey(today.monthIndex, today.dayOfMonth))
       case Some(YearKeys(keys)) => MonthDayKey(today.monthIndex, today.dayOfMonth) in keys
       case None => true)
    case Period => true
    case Repeat => true
  }

  /**
   * A missing or falsy schedule detail never makes a day unscheduled: the
   * test fails open.
   */
  lemma ScheduleFailsOpen(habit: Activity, today: Today)
    requires habit.frequency == Weekly ==> habit.details.weekly == None
    requires habit.frequency == Monthly ==> habit.details.monthly == None
    requires habit.frequency == Yearly ==>
      habit.details.yearly == None || habit.details.yearly == Some(YearText(""))
    ensures ShouldHabitLogToday(habit, today)
  {
  }

  /**
   * A weekly schedule says yes exactly when the editor's toggle labelled
   * with today's weekday name is on.
   */
  lemma WeeklyFollowsTodaysToggle(habit: Activity, today: Today, flags: seq<bool>)
    requires habit.frequency == Weekly && habit.details.weekly == Some(flags)
    ensures ShouldHabitLogToday(habit, today) <==>
      exists i :: 0 <= i < |flags| && i < 7 && flags[i] && EDITOR_WEEK_DAYS[i] == GET_DAY_NAMES[today.weekday]
  {
    var j := MondayIndex(today.weekday);
    if ShouldHabitLogToday(habit, today) {
      assert 0 <= j < |flags| && j < 7 && flags[j] && EDITOR_WEEK_DAYS[j] == GET_DAY_NAMES[today.weekday];
    }
    forall i | 0 <= i < |flags| && i < 7 && flags[i] && EDITOR_WEEK_DAYS[i] == GET_DAY_NAMES[today.weekday]
      ensures i == j
    {
    }
  }

  /**
   * A monthly schedule says yes exactly when the editor's toggle numbered
   * with today's date (toggle `i` shows `i + 1`) is on.
   */
  lemma MonthlyFollowsTodaysToggle(habit: Activity, today: Today, flags: seq<bool>)
    requires habit.frequency == Monthly && habit.details.monthly == Some(flags)
    ensures ShouldHabitLogToday(habit, today) <==>
      exists i :: 0 <= i < |flags| && flags[i] && i + 1 == today.dayOfMonth
  {
    if ShouldHabitLogToday(habit, today) {
      assert flags[today.dayOfMonth - 1];
    }
  }

  /**
   * A yearly schedule held as a list says yes exactly when today's month and
   * day are listed (a key that decodes to them).
   */
  lemma YearlyListFollowsToday(habit: Activity, today: Today, keys: seq<string>)
    requires habit.frequency == Yearly && habit.details.yearly == Some(YearKeys(keys))
    ensures ShouldHabitLogToday(habit, today) <==>
      exists k :: k in keys && IsMonthDayKey(k) &&
        TwoDigitValue(k[..2]) == today.monthIndex + 1 && TwoDigitValue(k[3..]) == today.dayOfMonth
  {
    var key := MonthDayKey(today.monthIndex, today.dayOfMonth);
    forall k | k in keys && IsMonthDayKey(k) &&
        TwoDigitValue(k[..2]) == today.monthIndex + 1 && TwoDigitValue(k[3..]) == today.dayOfMonth
      ensures k == key
    {
      KeyFromParts(k, key);
    }
  }

  /** A five-character key is determined by its digits and its separator. */
  lemma KeyFromParts(a: string, b: string)
    requires IsMonthDayKey(a) && IsMonthDayKey(b)
    requires TwoDigitValue(a[..2]) == TwoDigitValue(b[..2]) && TwoDigitValue(a[3..]) == TwoDigitValue(b[3..])
    ensures a == b
  {
  }

  /**
   * A yearly schedule kept as typed text says yes exactly when the text is
   * empty (falsy, so the test falls through to yes) or today's `MM-DD` key
   * occurs somewhere in it.
   */
  lemma YearlyTextFollowsToday(habit: Activity, today: Today, text: string)
    requires habit.frequency == Yearly && habit.details.yearly == Some(YearText(text))
    ensures ShouldHabitLogToday(habit, today) <==>
      text == "" || exists i :: OccursAt(text, MonthDayKey(today.monthIndex, today.dayOfMonth), i)
  {
  }

  /**
   * A yearly schedule kept as typed text is tested by substring: the text
   * "12-011" says yes on December 1st although it names no such day.
   */
  lemma YearlyTextIsSubstringTest()
    ensures ShouldHabitLogToday(
      Activity("h", Yearly, FrequencyDetails(None, None, Some(YearText("12-011")))),
      Today(0, 1, 1, 11))
  {
    var key := MonthDayKey(11, 1);
    assert key == "12-01";
    assert "12-011"[0..5] == key;
  }
}
