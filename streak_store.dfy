/**
 * The persistence side of lib/streak-tracker.ts: streak records kept in
 * the device's key-value store under `"streak_" + habitId`, the default
 * record of `loadStreakData`, `saveStreakData`, `resetStreak` and
 * `updateStreakOnLog`. The store is an object whose entries the methods
 * update in place.
 */
module StreakStore {
  import opened Options
  import opened Types
  import opened Schedule
  import opened Badges
  import opened StreakEngine

  /** What the store holds under a key: a record, or text that is empty or does not parse. */
  datatype Stored = Record(data: StreakData) | Unparsable

  /** The storage key of an activity's streak record. */
  function StorageKey(habitId: string): (key: string)
    ensures |key| == 7 + |habitId| && key[..7] == "streak_" && key[7..] == habitId
  {
    "streak_" + habitId
  }

  /** Different activities never share a storage key. */
  lemma StorageKeyInjective(a: string, b: string)
    requires StorageKey(a) == StorageKey(b)
    ensures a == b
  {
    assert a == StorageKey(a)[7..];
  }

  /**
   * The record edit of `resetStreak`: the current streak and its start are
   * cleared and every other field, badges included, is kept.
   */
  function ResetRecord(r: StreakData): (reset: StreakData)
    ensures reset.currentStreak == 0 && reset.streakStartDate == None
    ensures reset.habitId == r.habitId && reset.longestStreak == r.longestStreak
    ensures reset.lastLogDate == r.lastLogDate && reset.totalCompletions == r.totalCompletions
    ensures reset.badges == r.badges
  {
    r.(currentStreak := 0, streakStartDate := None)
  }

  /** Resetting twice is resetting once, and the zero record is already reset. */
  lemma ResetRecordIsIdempotent(r: StreakData, habitId: string)
    ensures ResetRecord(ResetRecord(r)) == ResetRecord(r)
    ensures ResetRecord(ZeroStreakData(habitId)) == ZeroStreakData(habitId)
  {
  }

  /**
   * A reset keeps the badges a record had, so a reset record of a streak of
   * a week or more holds badges its (zero) current streak does not reach.
   */
  lemma ResetKeepsEarnedBadges(habitId: string, logs: seq<ActivityLog>, habit: Activity, today: Today, now: int)
    requires StreakOf(habitId, logs, habit, today, now).currentStreak >= 7
    ensures ResetRecord(StreakOf(habitId, logs, habit, today, now)).badges != []
    ensures UnlockedBadges(ResetRecord(StreakOf(habitId, logs, habit, today, now)).currentStreak, now) == []
  {
    var r := StreakOf(habitId, logs, habit, today, now);
    assert MILESTONE_BADGES[0].milestone <= r.currentStreak;
    UnlockedBadgesExtremes(0, now);
  }

  class StreakStorage {
    /** The key-value store's entries, by storage key. */
    var entries: map<string, Stored>

    constructor ()
      ensures entries == map[]
    {
      entries := map[];
    }

    /**
     * `loadStreakData`: the stored record, or the zero record when nothing
     * usable is stored under the activity's key.
     */
    function LoadStreakData(habitId: string): (r: StreakData)
      reads this
      ensures StorageKey(habitId) in entries && entries[StorageKey(habitId)].Record? ==>
        r == entries[StorageKey(habitId)].data
      ensures !(StorageKey(habitId) in entries && entries[StorageKey(habitId)].Record?) ==>
        r == ZeroStreakData(habitId)
    {
      var key := StorageKey(habitId);
      if key in entries && entries[key].Record? then entries[key].data else ZeroStreakData(habitId)
    }

    /** `saveStreakData`: stores the record under its own activity's key. */
    method SaveStreakData(streakData: StreakData)
      modifies this
      ensures entries == old(entries)[StorageKey(streakData.habitId) := Record(streakData)]
    {
      entries := entries[StorageKey(streakData.habitId) := Record(streakData)];
    }

    /**
     * `resetStreak`: load, clear the current streak, save back under the
     * loaded record's own key; nothing else in the store changes.
     */
    method ResetStreak(habitId: string)
      modifies this
      ensures var loaded := old(LoadStreakData(habitId));
        entries == old(entries)[StorageKey(loaded.habitId) := Record(ResetRecord(loaded))]
    {
      var streakData := LoadStreakData(habitId);
      streakData := streakData.(currentStreak := 0);
      streakData := streakData.(streakStartDate := None);
      SaveStreakData(streakData);
    }

    /**
     * `updateStreakOnLog`: recompute the record from the logs and store it;
     * loading it back gives the fresh record.
     */
    method UpdateStreakOnLog(habitId: string, logs: seq<ActivityLog>, habit: Activity, today: Today, now: int)
      returns (streakData: StreakData)
      modifies this
      ensures streakData == StreakOf(habitId, logs, habit, today, now)
      ensures entries == old(entries)[StorageKey(habitId) := Record(streakData)]
      ensures LoadStreakData(habitId) == streakData
    {
      streakData := CalculateStreak(habitId, logs, habit, today, now);
      SaveStreakData(streakData);
    }
  }
}
