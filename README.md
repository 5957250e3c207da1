# Habit streak engine, category catalog and data migration

A Dafny model of the core of a habit-tracking app:

- **Streak engine** (`lib/streak-tracker.ts`):
  - `calculateStreak` turns one activity's completion logs into a streak record. The record holds the current streak, the longest streak, the last log date, the start of the current streak, the total completions and the milestone badges unlocked.
  - `shouldHabitLogToday` decides whether today is a scheduled day for the activity. It covers daily, weekly, monthly and yearly schedules.
  - The milestone badge catalog (7, 14, 30, 100 and 365 days) and `getUnlockedBadges`.
  - The queries over all habits: the streak map, the number of active streaks, the longest current streak, the union of unlocked badges and the statistics that combine them.
  - The stored records: the default zero record of `loadStreakData`, `saveStreakData`, `resetStreak` and `updateStreakOnLog`.
- **Category catalog** (`constants/categories.ts`): the eighteen habit categories and the lookups by id and by display name.
- **Data migration** (`migrate_data.ts`): stored habits gain `type`, `archived`, `pinned` and `updatedAt` defaults. Stored logs gain an `activityId` copied from the older `habitId`.

Modules and the parts of the source they model:

| module | file | what it models |
|---|---|---|
| `Options`, `Types` | `options.dfy`, `types.dfy` | the records of `constants/types.ts` that the engine reads |
| `Schedule` | `schedule.dfy` | `shouldHabitLogToday` |
| `Badges` | `badges.dfy` | the badge catalog and `getUnlockedBadges` |
| `StreakWalk` | `streak_walk.dfy` | the walk over sorted log dates, and what its counters mean as calendar facts |
| `StreakEngine` | `streak_engine.dfy` | `calculateStreak` |
| `StreakStore` | `streak_store.dfy` | the key-value store of streak records, as a class whose methods update its entries |
| `StreakAggregates` | `streak_aggregates.dfy` | the all-habit queries |
| `Categories` | `categories.dfy` | the category catalog |
| `Migration` | `migration.dfy` | the record transforms of the migration |

How the model represents the source:

- **Dates.** A date is an integer day number, so the next day is `d + 1`.
- **Reading the clock.**
  - `Today` is the `new Date()` the engine reads. It holds the UTC day number that `toISOString` gives, plus the local weekday, day of month and month that `getDay`, `getDate` and `getMonth` give.
  - `now` is `Date.now()`.
- **Map order.** The order in which `Object.values` lists the streak map is the `order` parameter: any duplicate-free listing of the habit ids. Every aggregate is proved independent of it.
- **`calculateStreak`.**
  - It is a method with the source's loop, proved equal to the function `StreakOf`.
  - The lemmas about `StreakOf` say what the record means:
    - the longest streak is the longest stretch of consecutive logged days;
    - the current streak is the stretch ending at the latest log, when that log is from today or from a scheduled yesterday;
    - streaks depend only on which days have a log.

### Calendar gaps break a run

The walk in `calculateStreak` (`lib/streak-tracker.ts:155-173`) extends a run only when the next log is exactly one day after the previous one; any longer gap starts a new run. This holds even on days the schedule does not require, so a Monday/Wednesday/Friday habit done on each of those days never gets past a streak of 1. The schedule is consulted only to let a log from yesterday keep the current streak alive (line 183). `StreakEngine.SkippedDayBreaksTheRun` states the consequence: when the day before the latest log has no log, a live streak is exactly 1.

## Model

| member | source | states |
|---|---|---|
| Badges.CatalogIsOrderedAndDistinct | lib/streak-tracker.ts:25-66 | the five milestone badges have ascending milestones and distinct ids |
| Badges.ReachedIsPrefix | lib/streak-tracker.ts:258-265 | filtering an ascending badge list by "milestone reached" keeps a prefix of it, each badge stamped with the unlock time |
| Badges.UnlockedBadges | lib/streak-tracker.ts:258-265 | catalog badge `i` is unlocked exactly when the streak reaches its milestone; the result is a stamped prefix of the catalog whose length is the number of milestones (7, 14, 30, 100, 365) the streak reaches |
| Badges.UnlockedBadgesMonotone | lib/streak-tracker.ts:258-265 | a longer streak unlocks every badge a shorter one does, in the same order |
| Badges.UnlockedBadgesExtremes | lib/streak-tracker.ts:258-265 | a streak under 7 unlocks nothing; a streak of 365 or more unlocks all five |
| Schedule.MondayIndex | lib/streak-tracker.ts:226-228 | the adjusted index points at the editor toggle labelled with today's weekday name (Sunday last) |
| Schedule.PadTwoDecimalRoundTrip | lib/streak-tracker.ts:240 | two-digit zero padding of a number below 100 has length 2 and reads back as the number |
| Schedule.MonthDayKey | lib/streak-tracker.ts:240 | the `MM-DD` key has the key shape and its two fields decode to month + 1 and day |
| Schedule.MonthDayKeyInjective | lib/streak-tracker.ts:240 | different calendar days have different keys |
| Schedule.Contains | lib/streak-tracker.ts:241 | `includes` on text holds exactly when the key occurs at some position |
| Schedule.ShouldHabitLogToday | lib/streak-tracker.ts:215-253 | only a weekly, monthly or yearly schedule can say no |
| Schedule.ScheduleFailsOpen | lib/streak-tracker.ts:220-252 | a missing or falsy schedule detail always says yes |
| Schedule.WeeklyFollowsTodaysToggle | lib/streak-tracker.ts:224-230 | a weekly schedule says yes if and only if the toggle labelled with today's weekday is on |
| Schedule.MonthlyFollowsTodaysToggle | lib/streak-tracker.ts:232-236 | a monthly schedule says yes if and only if the toggle for today's date is on |
| Schedule.YearlyListFollowsToday | lib/streak-tracker.ts:238-243 | a yearly key list says yes if and only if it holds a key that decodes to today's month and day |
| Schedule.YearlyTextFollowsToday | lib/streak-tracker.ts:238-243 | a yearly schedule held as text says yes if and only if the text is empty or today's `MM-DD` key occurs somewhere in it |
| Schedule.YearlyTextIsSubstringTest | lib/streak-tracker.ts:238-243 | yearly text is tested by substring: "12-011" matches December 1st |
| StreakWalk.RunIsMaximalBlock | lib/streak-tracker.ts:152-173 | the run the walk is in is a block of consecutive logged days ending at the current log, as long as counted, with no log on the day before it |
| StreakWalk.MaxRunIsMaximum | lib/streak-tracker.ts:152-173 | the largest run length is reached at some step and no step exceeds it |
| StreakWalk.FoldedLongestIsMaxRun | lib/streak-tracker.ts:165-172 | the longest run closed by a gap, folded with the final run, is the largest run the walk reached |
| StreakWalk.LongestStreakIsLongestBlock | lib/streak-tracker.ts:152-173 | some block of consecutive logged days is as long as the longest streak, and none is longer |
| StreakWalk.BlockFitsInRun | lib/streak-tracker.ts:152-173 | any block of consecutive logged days fits in the run the walk reaches at its last day |
| StreakWalk.TailRunEndsAtLatestLog | lib/streak-tracker.ts:152-176 | the final run ends at the latest date, covers every day back to its start, and the day before its start has no log |
| StreakWalk.WalkDependsOnlyOnDays | lib/streak-tracker.ts:152-176 | two ascending date lists with the same days have the same last day, final run and longest run |
| StreakEngine.ZeroStreakData | lib/streak-tracker.ts:135-145 | the zero record: no streak, no dates, no completions, no badges |
| StreakEngine.FilterByActivity | lib/streak-tracker.ts:126-127 | the filter keeps exactly the activity's logs, each as often as it occurs |
| StreakEngine.FilterCountsMatchingLogs | lib/streak-tracker.ts:126-127 | the filtered list has one entry per matching position of the log list |
| StreakEngine.InsertByDate | lib/streak-tracker.ts:128 | insertion into a date-sorted list stays sorted and adds exactly the one log |
| StreakEngine.SortByDate | lib/streak-tracker.ts:128 | the sort returns a date-ascending permutation of its input |
| StreakEngine.HabitLogsAreMatchingLogs | lib/streak-tracker.ts:126-128 | the walked logs are sorted and are exactly the activity's logs |
| StreakEngine.WalkedDatesAreLoggedDays | lib/streak-tracker.ts:126-128 | the walked dates ascend and are exactly the days with a log of the activity |
| StreakEngine.WalkRuns | lib/streak-tracker.ts:152-173 | the loop leaves the final run's length and start, and the longest run closed by a gap |
| StreakEngine.CalculateStreak | lib/streak-tracker.ts:121-210 | the method's record equals the specification record `StreakOf` |
| StreakEngine.NoLogsGivesZeroRecord | lib/streak-tracker.ts:135-145 | the record is the zero record if and only if the activity has no log |
| StreakEngine.TotalCompletionsCountsEveryLog | lib/streak-tracker.ts:205 | total completions counts every matching log, same-day repeats included |
| StreakEngine.LongestStreakIsLongestStretch | lib/streak-tracker.ts:151-173 | with a log, the longest streak is at least 1 and at least the current streak, some stretch of consecutive logged days is that long, and none is longer |
| StreakEngine.CurrentStreakIsLiveTailStretch | lib/streak-tracker.ts:175-197 | the last log date is the latest logged day; when it is today or a scheduled yesterday, the current streak is the stretch ending there, with its first day as start and no log the day before; otherwise 0 and no start; badges follow the current streak |
| StreakEngine.SkippedDayBreaksTheRun | lib/streak-tracker.ts:162-172 | a live current streak whose latest log has no log the day before is exactly 1, whatever the schedule |
| StreakEngine.StreakDependsOnlyOnLoggedDays | lib/streak-tracker.ts:121-210 | log lists with the same logged days give the same record except for total completions, including when neither has a log of the activity |
| StreakStore.StorageKey | lib/streak-tracker.ts:73 | the key is `streak_` followed by the activity id |
| StreakStore.StorageKeyInjective | lib/streak-tracker.ts:106-108 | different activities never share a storage key |
| StreakStore.ResetRecord | lib/streak-tracker.ts:349-350 | a reset clears the current streak and its start date and keeps every other field, badges included |
| StreakStore.ResetRecordIsIdempotent | lib/streak-tracker.ts:347-352 | resetting twice is resetting once, and the zero record is already reset |
| StreakStore.ResetKeepsEarnedBadges | lib/streak-tracker.ts:347-352 | resetting a record with a streak of a week or more leaves badges that its zero current streak does not reach |
| StreakStore.StreakStorage.LoadStreakData | lib/streak-tracker.ts:71-99 | the stored record under the activity's key, or the zero record when nothing usable is stored |
| StreakStore.StreakStorage.SaveStreakData | lib/streak-tracker.ts:104-116 | the record is stored under its own activity's key and nothing else changes |
| StreakStore.StreakStorage.ResetStreak | lib/streak-tracker.ts:347-352 | the loaded record, reset, is stored under its own key and nothing else changes |
| StreakStore.StreakStorage.UpdateStreakOnLog | lib/streak-tracker.ts:270-278 | the fresh record is returned and stored under the activity's key, and loading it back gives it |
| StreakAggregates.GetAllStreakData | lib/streak-tracker.ts:283-294 | the loop builds the streak map, a later habit with a repeated id replacing the earlier one |
| StreakAggregates.AllStreakDataKeys | lib/streak-tracker.ts:287-291 | the streak map has exactly one key per habit id |
| StreakAggregates.LastHabitWithIdIsRecorded | lib/streak-tracker.ts:289-291 | under each id the map holds the record of the last habit with that id |
| StreakAggregates.AllStreakDataBadgesFollowCurrent | lib/streak-tracker.ts:289-291 | every record in the map carries the badges its current streak reaches |
| StreakAggregates.CountActive | lib/streak-tracker.ts:304 | the count is the number of listed ids whose record has a current streak, and at most the number of ids |
| StreakAggregates.MaxCurrent | lib/streak-tracker.ts:315-318 | the result bounds every listed current streak and is 0 or one of them |
| StreakAggregates.TotalActiveStreaks | lib/streak-tracker.ts:367-369 | the active count is the size of the set of active ids, whatever the order, and at most the map's size |
| StreakAggregates.LongestActiveStreak | lib/streak-tracker.ts:370-373 | the largest current streak in the map, or 0, whatever the order |
| StreakAggregates.NoActiveStreakIffLongestIsZero | lib/streak-tracker.ts:299-319 | no habit is active if and only if the longest current streak is 0 |
| StreakAggregates.GetTotalActiveStreaks | lib/streak-tracker.ts:299-305 | the active count of the streak map, at most one per habit |
| StreakAggregates.GetLongestActiveStreak | lib/streak-tracker.ts:310-319 | the longest current streak of the streak map |
| StreakAggregates.AppendNewBadges | lib/streak-tracker.ts:333-338 | the inner loop appends each badge whose id is new and keeps the id set in step |
| StreakAggregates.GetAllUnlockedBadges | lib/streak-tracker.ts:324-342 | the loops build the first-seen union of the records' badges in enumeration order |
| StreakAggregates.AddNewBadgesKeepsIdsDistinct | lib/streak-tracker.ts:329-338 | adding badges keeps what was there as a prefix, never repeats an id, and covers every new id |
| StreakAggregates.BadgeUnionIsDuplicateFree | lib/streak-tracker.ts:324-342 | the union lists no id twice, lists the id of every badge of every record, and holds only badges of records |
| StreakAggregates.BadgeUnionIsLongestStreaksBadges | lib/streak-tracker.ts:324-342 | when each record carries its own unlocked badges, the union is the badge list of the longest current streak, whatever the order |
| StreakAggregates.GetStreakStats | lib/streak-tracker.ts:357-382 | the statistics hold the streak map, its active count and longest current streak, and a badge count equal to the number of milestones the longest current streak reaches |
| Categories.Find | constants/categories.ts:138-144 | `find` returns the first entry whose field matches, and nothing if and only if none does |
| Categories.GetCategoryById | constants/categories.ts:138-140 | a found category is in the catalog with that id; nothing is found if and only if no category has it |
| Categories.GetCategoryByName | constants/categories.ts:142-144 | a found category is in the catalog with that exact name; nothing is found if and only if no category has it |
| Categories.CatalogIdsAndNamesAreDistinct | constants/categories.ts:9-136 | no two of the eighteen categories share an id or a name |
| Categories.LookupsFindEachCategory | constants/categories.ts:9-144 | every catalog category is found by its own id and by its own name |
| Migration.Or | migrate_data.ts:12-15 | JavaScript's `or` yields one of its operands, is truthy if and only if either is, and yields the first when it is truthy |
| Migration.MigrateHabit | migrate_data.ts:10-16 | every other field is kept; the four defaulted fields keep a truthy value and otherwise get `'habit'`, `false`, `false`, and `createdAt` or the clock |
| Migration.MigrateLog | migrate_data.ts:22-25 | every other field is kept; `activityId` keeps a truthy value and otherwise takes `habitId` |
| Migration.MigrateHabits | migrate_data.ts:10-16 | the list keeps its length and order, each habit migrated |
| Migration.MigrateLogs | migrate_data.ts:22-25 | the list keeps its length and order, each log migrated |
| Migration.MigratedHabitIsComplete | migrate_data.ts:12-15 | a migrated habit has a truthy type and update time and both flags |
| Migration.MigrateHabitIsIdempotent | migrate_data.ts:10-16 | migrating a migrated habit again changes nothing, whatever the clock then reads |
| Migration.MigrateLogIsIdempotent | migrate_data.ts:22-25 | migrating a migrated log again changes nothing |
| Migration.LegacyLogPointsAtItsHabit | migrate_data.ts:24 | a log with only a `habitId` gets that id as its `activityId` |
| Migration.MigrateListsAreIdempotent | migrate_data.ts:10-25 | running both list migrations twice is running them once |

## Left out

- Storage I/O: the store's asynchronous calls, JSON serialisation and the console logging in the error handlers are not modelled. The store is a map from keys to records, or to text that does not parse. A failed write in `saveStreakData` is swallowed by the source; here a save always succeeds.
- StreakStore.StreakStorage.LoadStreakData: stored text that parses to something other than a streak record is returned as-is by the source. The model has no such value. Text that is empty or does not parse gives the zero record, as in the source.
- Date parsing: log dates are calendar day numbers. `new Date(string)`, the millisecond arithmetic and the `Math.floor` over day lengths are reduced to day differences. Dates carrying a time of day, or invalid dates (NaN), are not modelled.
- Clock reads: the source reads `new Date()` once in `calculateStreak` and again in `shouldHabitLogToday`, and reads `Date.now()` once per unlocked badge and per migrated habit. The model takes one `Today` and one `now` per call, so two reads straddling midnight or a millisecond tick are not modelled.
- `Object.values` order: it comes from the JavaScript engine and is the `order` parameter. Every result is shown independent of it.
- Migration.MigrateHabit: JSON numbers are integers here, so NaN (falsy in JavaScript) and fractional numbers are not modelled. The read, parse and write of the stored lists around the transforms (`migrate_data.ts:5-8`, `17-21`, `26-32`) are I/O and left out.
- The `period` and `repeat` schedules are modelled as the source has them: always scheduled. The source's comment about checking period habits against the creation date describes nothing it does.
- Notifications, sharing, challenges and the screens and components are not part of this model.
