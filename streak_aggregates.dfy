/**
 * The queries of lib/streak-tracker.ts over all habits: the streak map, the
 * active count, the longest current streak, the badge union and the
 * statistics that combine them.
 *
 * `Object.values` walks the streak map in an order fixed by the JavaScript
 * engine; it is the `order` parameter here, any duplicate-free listing of
 * the habit ids, and every result below is shown not to depend on it.
 */
module StreakAggregates {
  import opened Types
  import opened Schedule
  import opened Badges
  import opened StreakWalk
  import opened StreakEngine

  /** The ids of a list of habits. */
  ghost function HabitIds(habits: seq<Activity>): set<string> {
    set h | h in habits :: h.id
  }

  /** The ids of a non-empty list: those of all but the last habit, and the last habit's. */
  lemma HabitIdsSnoc(habits: seq<Activity>)
    requires habits != []
    ensures HabitIds(habits) == HabitIds(habits[..|habits| - 1]) + {habits[|habits| - 1].id}
  {
    var front, h := habits[..|habits| - 1], habits[|habits| - 1];
    forall k | k in HabitIds(habits)
      ensures k in HabitIds(front) + {h.id}
    {
      var i :| 0 <= i < |habits| && habits[i].id == k;
      if i < |habits| - 1 {
        assert front[i] == habits[i];
      }
    }
    forall k | k in HabitIds(front)
      ensures k in HabitIds(habits)
    {
      var i :| 0 <= i < |front| && front[i].id == k;
      assert habits[i] == front[i];
    }
  }

  /** `order` lists each habit id exactly once. */
  ghost predicate IsIdOrder(order: seq<string>, habits: seq<Activity>) {
    && (forall i, j :: 0 <= i < j < |order| ==> order[i] != order[j])
    && (forall k :: k in order <==> k in HabitIds(habits))
  }

  /**
   * What the loop of `getAllStreakData` builds after the given habits: each
   * habit's record under its id, a later habit with the same id replacing
   * an earlier one.
   */
  function AllStreakData(habits: seq<Activity>, logs: seq<ActivityLog>, today: Today, now: int): map<string, StreakData>
    decreases |habits|
  {
    if habits == [] then map[]
    else
      var h := habits[|habits| - 1];
      AllStreakData(habits[..|habits| - 1], logs, today, now)[h.id := StreakOf(h.id, logs, h, today, now)]
  }

  /** `getAllStreakData`. */
  method GetAllStreakData(habits: seq<Activity>, logs: seq<ActivityLog>, today: Today, now: int)
    returns (allStreakData: map<string, StreakData>)
    ensures allStreakData == AllStreakData(habits, logs, today, now)
  {
    allStreakData := map[];
    for i := 0 to |habits|
      invariant allStreakData == AllStreakData(habits[..i], logs, today, now)
    {
      var habit := habits[i];
      var streak := CalculateStreak(habit.id, logs, habit, today, now);
      assert habits[..i + 1][..i] == habits[..i];
      allStreakData := allStreakData[habit.id := streak];
    }
    assert habits[..|habits|] == habits;
  }

  /** The streak map has one entry per habit id. */
  lemma {:induction false} AllStreakDataKeys(habits: seq<Activity>, logs: seq<ActivityLog>, today: Today, now: int)
    ensures AllStreakData(habits, logs, today, now).Keys == HabitIds(habits)
    decreases |habits|
  {
    if habits != [] {
      var n := |habits|;
      var front := habits[..n - 1];
      AllStreakDataKeys(front, logs, today, now);
      HabitIdsSnoc(habits);
    }
  }

  /** Every record in the streak map has the badges its current streak reaches. */
  lemma AllStreakDataBadgesFollowCurrent(habits: seq<Activity>, logs: seq<ActivityLog>, today: Today, now: int)
    ensures forall k :: k in AllStreakData(habits, logs, today, now) ==>
      AllStreakData(habits, logs, today, now)[k].badges ==
        UnlockedBadges(AllStreakData(habits, logs, today, now)[k].currentStreak, now)
  {
    AllStreakDataKeys(habits, logs, today, now);
    LastHabitWithIdIsRecorded(habits, logs, today, now);
    forall k | k in AllStreakData(habits, logs, today, now)
      ensures AllStreakData(habits, logs, today, now)[k].badges ==
        UnlockedBadges(AllStreakData(habits, logs, today, now)[k].currentStreak, now)
    {
      StreakBadgesFollowCurrent(k, logs, LastHabitWithId(habits, k), today, now);
    }
  }

  /** A record's badges are those its current streak reaches. */
  lemma StreakBadgesFollowCurrent(habitId: string, logs: seq<ActivityLog>, habit: Activity, today: Today, now: int)
    ensures StreakOf(habitId, logs, habit, today, now).badges ==
      UnlockedBadges(StreakOf(habitId, logs, habit, today, now).currentStreak, now)
  {
  }

  /** The ids in `ks` whose record has a current streak. */
  ghost function ActiveIdsAmong(m: map<string, StreakData>, ks: seq<string>): set<string>
    requires forall k :: k in ks ==> k in m
  {
    set k | k in ks && m[k].currentStreak > 0
  }

  /** `values.filter(s => s.currentStreak > 0).length`, the values taken in `ks` order. */
  function CountActive(m: map<string, StreakData>, ks: seq<string>): (count: nat)
    requires forall k :: k in ks ==> k in m
    requires forall i, j :: 0 <= i < j < |ks| ==> ks[i] != ks[j]
    ensures count == |ActiveIdsAmong(m, ks)|
    ensures count <= |ks|
    decreases |ks|
  {
    if ks == [] then 0
    else
      var front, k := ks[..|ks| - 1], ks[|ks| - 1];
      var before := CountActive(m, front);
      ActiveIdsAmongSnoc(m, ks);
      if m[k].currentStreak > 0 then before + 1 else before
  }

  /** The last id of a duplicate-free listing is new, and counts when its record is active. */
  lemma ActiveIdsAmongSnoc(m: map<string, StreakData>, ks: seq<string>)
    requires ks != [] && forall k :: k in ks ==> k in m
    requires forall i, j :: 0 <= i < j < |ks| ==> ks[i] != ks[j]
    ensures ks[|ks| - 1] !in ActiveIdsAmong(m, ks[..|ks| - 1])
    ensures ActiveIdsAmong(m, ks) == ActiveIdsAmong(m, ks[..|ks| - 1]) +
      (if m[ks[|ks| - 1]].currentStreak > 0 then {ks[|ks| - 1]} else {})
  {
    var front, k := ks[..|ks| - 1], ks[|ks| - 1];
    assert ks == front + [k];
    assert k !in front;
  }

  /** `Math.max(...values.map(s => s.currentStreak), 0)`, the values taken in `ks` order. */
  function MaxCurrent(m: map<string, StreakData>, ks: seq<string>): (longest: nat)
    requires forall k :: k in ks ==> k in m
    ensures forall k :: k in ks ==> m[k].currentStreak <= longest
    ensures longest == 0 || exists k :: k in ks && m[k].currentStreak == longest
    decreases |ks|
  {
    if ks == [] then 0
    else
      var front, k := ks[..|ks| - 1], ks[|ks| - 1];
      assert ks == front + [k];
      var before := MaxCurrent(m, front);
      if m[k].currentStreak > before then m[k].currentStreak else before
  }

  /** `order` lists each key of the streak map exactly once. */
  ghost predicate IsKeyOrder(order: seq<string>, m: map<string, StreakData>) {
    && (forall i, j :: 0 <= i < j < |order| ==> order[i] != order[j])
    && (forall k :: k in order <==> k in m)
  }

  /** The ids whose record has a current streak. */
  ghost function ActiveIds(m: map<string, StreakData>): set<string> {
    set k | k in m && m[k].currentStreak > 0
  }

  /**
   * The active count of `getTotalActiveStreaks` and `getStreakStats`: the
   * number of ids with a current streak, whatever the enumeration order.
   */
  function TotalActiveStreaks(m: map<string, StreakData>, order: seq<string>): (count: nat)
    requires IsKeyOrder(order, m)
    ensures count == |ActiveIds(m)|
    ensures count <= |m|
  {
    assert ActiveIdsAmong(m, order) == ActiveIds(m);
    SubsetIsNoLarger(ActiveIds(m), m.Keys);
    CountActive(m, order)
  }

  lemma SubsetIsNoLarger<T>(a: set<T>, b: set<T>)
    requires a <= b
    ensures |a| <= |b|
  {
    assert b == a + (b - a);
  }

  /**
   * The "longest streak" of `getLongestActiveStreak` and `getStreakStats`:
   * the largest current streak (not the largest longest streak), 0 when no
   * habit has one, whatever the enumeration order.
   */
  function LongestActiveStreak(m: map<string, StreakData>, order: seq<string>): (longest: nat)
    requires IsKeyOrder(order, m)
    ensures forall k :: k in m ==> m[k].currentStreak <= longest
    ensures longest == 0 || exists k :: k in m && m[k].currentStreak == longest
  {
    MaxCurrent(m, order)
  }

  /** Nobody is active exactly when the longest current streak is 0. */
  lemma NoActiveStreakIffLongestIsZero(m: map<string, StreakData>, order: seq<string>)
    requires IsKeyOrder(order, m)
    ensures TotalActiveStreaks(m, order) == 0 <==> LongestActiveStreak(m, order) == 0
  {
    var longest := LongestActiveStreak(m, order);
    if longest > 0 {
      var k :| k in m && m[k].currentStreak == longest;
      assert k in ActiveIds(m);
    }
    if TotalActiveStreaks(m, order) > 0 {
      var k :| k in ActiveIds(m);
      assert m[k].currentStreak <= longest;
    }
  }

  /** A listing of the habit ids is a listing of the streak map's keys, and there are no more keys than habits. */
  lemma IdOrderIsKeyOrder(habits: seq<Activity>, logs: seq<ActivityLog>, today: Today, now: int, order: seq<string>)
    requires IsIdOrder(order, habits)
    ensures IsKeyOrder(order, AllStreakData(habits, logs, today, now))
    ensures |AllStreakData(habits, logs, today, now)| <= |habits|
  {
    AllStreakDataKeys(habits, logs, today, now);
    HabitIdsBound(habits);
  }

  /** `getTotalActiveStreaks`: at most one active streak per habit. */
  method GetTotalActiveStreaks(habits: seq<Activity>, logs: seq<ActivityLog>, today: Today, now: int, order: seq<string>)
    returns (count: nat)
    requires IsIdOrder(order, habits)
    ensures IsKeyOrder(order, AllStreakData(habits, logs, today, now))
    ensures count == TotalActiveStreaks(AllStreakData(habits, logs, today, now), order)
    ensures count <= |habits|
  {
    var allStreakData := GetAllStreakData(habits, logs, today, now);
    IdOrderIsKeyOrder(habits, logs, today, now, order);
    count := CountActive(allStreakData, order);
  }

  /** `getLongestActiveStreak`. */
  method GetLongestActiveStreak(habits: seq<Activity>, logs: seq<ActivityLog>, today: Today, now: int, order: seq<string>)
    returns (longest: nat)
    requires IsIdOrder(order, habits)
    ensures IsKeyOrder(order, AllStreakData(habits, logs, today, now))
    ensures longest == LongestActiveStreak(AllStreakData(habits, logs, today, now), order)
  {
    var allStreakData := GetAllStreakData(habits, logs, today, now);
    IdOrderIsKeyOrder(habits, logs, today, now, order);
    longest := MaxCurrent(allStreakData, order);
  }

  /** The last habit in the list with this id: no later habit has it. */
  function LastHabitWithId(habits: seq<Activity>, k: string): (h: Activity)
    requires k in HabitIds(habits)
    ensures h.id == k
    ensures exists i :: 0 <= i < |habits| && habits[i] == h && (forall j :: i < j < |habits| ==> habits[j].id != k)
    decreases |habits|
  {
    var n := |habits|;
    var last := habits[n - 1];
    if last.id == k then
      assert habits[n - 1] == last;
      last
    else
      var front := habits[..n - 1];
      assert habits == front + [last];
      assert k in HabitIds(front);
      var h := LastHabitWithId(front, k);
      var i :| 0 <= i < |front| && front[i] == h && (forall j :: i < j < |front| ==> front[j].id != k);
      assert habits[i] == h;
      h
  }

  /** The streak map holds, under each id, the record of the last habit with that id. */
  lemma {:induction false} LastHabitWithIdIsRecorded(habits: seq<Activity>, logs: seq<ActivityLog>, today: Today, now: int)
    ensures forall k :: k in HabitIds(habits) ==>
      k in AllStreakData(habits, logs, today, now) &&
      AllStreakData(habits, logs, today, now)[k] == StreakOf(k, logs, LastHabitWithId(habits, k), today, now)
    decreases |habits|
  {
    if habits != [] {
      var n := |habits|;
      var front := habits[..n - 1];
      LastHabitWithIdIsRecorded(front, logs, today, now);
      HabitIdsSnoc(habits);
    }
  }

  /** There are no more habit ids than habits. */
  lemma {:induction false} HabitIdsBound(habits: seq<Activity>)
    ensures |HabitIds(habits)| <= |habits|
    decreases |habits|
  {
    if habits != [] {
      var n := |habits|;
      var front := habits[..n - 1];
      HabitIdsBound(front);
      HabitIdsSnoc(habits);
    }
  }

  /** The ids of a badge list. */
  ghost function IdsOf(bs: seq<Badge>): set<string> {
    set b | b in bs :: b.id
  }

  lemma IdsOfSnoc(bs: seq<Badge>, b: Badge)
    ensures IdsOf(bs + [b]) == IdsOf(bs) + {b.id}
  {
    forall k | k in IdsOf(bs + [b])
      ensures k in IdsOf(bs) + {b.id}
    {
      var c :| c in bs + [b] && c.id == k;
      if c != b {
        assert c in bs;
      }
    }
    forall k | k in IdsOf(bs)
      ensures k in IdsOf(bs + [b])
    {
      var c :| c in bs && c.id == k;
      assert c in bs + [b];
    }
  }

  lemma IdsOfLast(bs: seq<Badge>)
    requires bs != []
    ensures IdsOf(bs) == IdsOf(bs[..|bs| - 1]) + {bs[|bs| - 1].id}
  {
    assert bs == bs[..|bs| - 1] + [bs[|bs| - 1]];
    IdsOfSnoc(bs[..|bs| - 1], bs[|bs| - 1]);
  }

  /** The inner loop of `getAllUnlockedBadges`: append each badge of `bs` whose id is new. */
  ghost function AddNewBadges(acc: seq<Badge>, bs: seq<Badge>): seq<Badge>
    decreases |bs|
  {
    if bs == [] then acc
    else
      var before := AddNewBadges(acc, bs[..|bs| - 1]);
      var b := bs[|bs| - 1];
      if b.id in IdsOf(before) then before else before + [b]
  }

  /** The badge union after the records of `ks`, in that order. */
  ghost function BadgeUnion(m: map<string, StreakData>, ks: seq<string>): seq<Badge>
    requires forall k :: k in ks ==> k in m
    decreases |ks|
  {
    if ks == [] then []
    else
      assert ks == ks[..|ks| - 1] + [ks[|ks| - 1]];
      AddNewBadges(BadgeUnion(m, ks[..|ks| - 1]), m[ks[|ks| - 1]].badges)
  }

  /** `getAllUnlockedBadges`: the badges of all records, each id kept once, first seen first. */
  method GetAllUnlockedBadges(habits: seq<Activity>, logs: seq<ActivityLog>, today: Today, now: int, order: seq<string>)
    returns (allBadges: seq<Badge>)
    requires IsIdOrder(order, habits)
    ensures IsKeyOrder(order, AllStreakData(habits, logs, today, now))
    ensures allBadges == BadgeUnion(AllStreakData(habits, logs, today, now), order)
  {
    var allStreakData := GetAllStreakData(habits, logs, today, now);
    IdOrderIsKeyOrder(habits, logs, today, now, order);
    assert forall k :: k in order ==> k in allStreakData;
    var badgesSet: set<string> := {};
    allBadges := [];
    for i := 0 to |order|
      invariant allBadges == BadgeUnion(allStreakData, order[..i])
      invariant badgesSet == IdsOf(allBadges)
    {
      var streakData := allStreakData[order[i]];
      ghost var done := order[..i + 1];
      assert done[..i] == order[..i] && done[i] == order[i];
      assert BadgeUnion(allStreakData, done) == AddNewBadges(BadgeUnion(allStreakData, order[..i]), streakData.badges);
      allBadges, badgesSet := AppendNewBadges(allBadges, badgesSet, streakData.badges);
    }
    assert order[..|order|] == order;
  }

  /** The inner loop of `getAllUnlockedBadges` over one record's badges. */
  method AppendNewBadges(allBadges: seq<Badge>, badgesSet: set<string>, badges: seq<Badge>)
    returns (allBadges': seq<Badge>, badgesSet': set<string>)
    requires badgesSet == IdsOf(allBadges)
    ensures allBadges' == AddNewBadges(allBadges, badges)
    ensures badgesSet' == IdsOf(allBadges')
  {
    allBadges', badgesSet' := allBadges, badgesSet;
    for j := 0 to |badges|
      invariant allBadges' == AddNewBadges(allBadges, badges[..j])
      invariant badgesSet' == IdsOf(allBadges')
    {
      var badge := badges[j];
      assert badges[..j + 1][..j] == badges[..j];
      if badge.id !in badgesSet' {
        IdsOfSnoc(allBadges', badge);
        badgesSet' := badgesSet' + {badge.id};
        allBadges' := allBadges' + [badge];
      }
    }
    assert badges[..|badges|] == badges;
  }

  /** Adding keeps what was there as a prefix, adds every new id, and never repeats one. */
  lemma {:induction false} AddNewBadgesKeepsIdsDistinct(acc: seq<Badge>, bs: seq<Badge>)
    requires DistinctIds(acc)
    ensures DistinctIds(AddNewBadges(acc, bs))
    ensures |acc| <= |AddNewBadges(acc, bs)| && AddNewBadges(acc, bs)[..|acc|] == acc
    ensures IdsOf(AddNewBadges(acc, bs)) == IdsOf(acc) + IdsOf(bs)
    decreases |bs|
  {
    if bs != [] {
      var front, b := bs[..|bs| - 1], bs[|bs| - 1];
      AddNewBadgesKeepsIdsDistinct(acc, front);
      var before := AddNewBadges(acc, front);
      IdsOfLast(bs);
      IdsOfSnoc(before, b);
      if b.id !in IdsOf(before) {
        AppendNewIdKeepsDistinct(before, b);
        assert (before + [b])[..|acc|] == before[..|acc|];
      }
    }
  }

  /** Appending a badge with a new id keeps the ids distinct. */
  lemma AppendNewIdKeepsDistinct(bs: seq<Badge>, b: Badge)
    requires DistinctIds(bs) && b.id !in IdsOf(bs)
    ensures DistinctIds(bs + [b])
  {
    var after := bs + [b];
    forall i, j | 0 <= i < j < |after|
      ensures after[i].id != after[j].id
    {
      assert after[i] == bs[i];
      if j == |bs| {
        assert bs[i].id in IdsOf(bs);
      } else {
        assert after[j] == bs[j];
      }
    }
  }

  /** The union never lists an id twice, and lists every id of every record. */
  lemma {:induction false} BadgeUnionIsDuplicateFree(m: map<string, StreakData>, ks: seq<string>)
    requires forall k :: k in ks ==> k in m
    ensures DistinctIds(BadgeUnion(m, ks))
    ensures forall k, b :: k in ks && b in m[k].badges ==> b.id in IdsOf(BadgeUnion(m, ks))
    ensures forall b :: b in BadgeUnion(m, ks) ==> exists k :: k in ks && b in m[k].badges
    decreases |ks|
  {
    if ks != [] {
      var front, last := ks[..|ks| - 1], ks[|ks| - 1];
      BadgeUnionIsDuplicateFree(m, front);
      var before := BadgeUnion(m, front);
      AddNewBadgesKeepsIdsDistinct(before, m[last].badges);
      AddNewBadgesDrawsFrom(before, m[last].badges);
      forall k, b | k in ks && b in m[k].badges
        ensures b.id in IdsOf(BadgeUnion(m, ks))
      {
        if k != last {
          assert k in front;
        }
      }
      forall b | b in BadgeUnion(m, ks)
        ensures exists k :: k in ks && b in m[k].badges
      {
        if b in before {
          var k :| k in front && b in m[k].badges;
          assert k in ks;
        }
      }
    }
  }

  /** Every badge the inner loop adds comes from the list it walks. */
  lemma {:induction false} AddNewBadgesDrawsFrom(acc: seq<Badge>, bs: seq<Badge>)
    ensures forall b :: b in AddNewBadges(acc, bs) ==> b in acc || b in bs
    decreases |bs|
  {
    if bs != [] {
      AddNewBadgesDrawsFrom(acc, bs[..|bs| - 1]);
      assert forall b :: b in bs[..|bs| - 1] ==> b in bs;
    }
  }

  /** In a list with distinct ids, adding the first `b` entries to the first `a` gives the first `max(a, b)`. */
  lemma {:induction false} AddNewPrefixes(cat: seq<Badge>, a: nat, b: nat)
    requires DistinctIds(cat) && a <= |cat| && b <= |cat|
    ensures AddNewBadges(cat[..a], cat[..b]) == cat[..Max(a, b)]
    decreases b
  {
    if b > 0 {
      AddNewPrefixes(cat, a, b - 1);
      assert cat[..b][..b - 1] == cat[..b - 1];
      NextEntryStep(cat, Max(a, b - 1), b - 1);
    }
  }

  /** Entry `i` of a prefix of length `p >= i` is skipped when already there and appended when next. */
  lemma NextEntryStep(cat: seq<Badge>, p: nat, i: nat)
    requires DistinctIds(cat) && i <= p <= |cat| && i < |cat|
    ensures (if cat[i].id in IdsOf(cat[..p]) then cat[..p] else cat[..p] + [cat[i]]) == cat[..Max(p, i + 1)]
  {
    if i < p {
      assert cat[..p][i] == cat[i];
    } else {
      forall c | c in cat[..p]
        ensures c.id != cat[i].id
      {
        var j :| 0 <= j < p && cat[..p][j] == c;
        assert cat[j] == c;
      }
      assert cat[..p] + [cat[i]] == cat[..p + 1];
    }
  }

  /** Adding the first `b` catalog badges to the first `a` gives the first `max(a, b)`. */
  lemma AddNewCatalogPrefixes(a: nat, b: nat, now: int)
    requires a <= |MILESTONE_BADGES| && b <= |MILESTONE_BADGES|
    ensures AddNewBadges(StampedPrefix(a, now), StampedPrefix(b, now)) == StampedPrefix(Max(a, b), now)
  {
    var all := StampedPrefix(|MILESTONE_BADGES|, now);
    CatalogIsOrderedAndDistinct();
    assert DistinctIds(all);
    assert StampedPrefix(a, now) == all[..a];
    assert StampedPrefix(b, now) == all[..b];
    assert StampedPrefix(Max(a, b), now) == all[..Max(a, b)];
    AddNewPrefixes(all, a, b);
  }

  /**
   * When every record's badges are those its current streak reaches (as
   * `calculateStreak` makes them, all stamped with `now`), the union is the
   * badge list of the longest current streak, whatever the order: a
   * prefix of the catalog, at most five badges.
   */
  lemma {:induction false} BadgeUnionIsLongestStreaksBadges(m: map<string, StreakData>, ks: seq<string>, now: int)
    requires forall k :: k in ks ==> k in m
    requires forall k :: k in m ==> m[k].badges == UnlockedBadges(m[k].currentStreak, now)
    ensures BadgeUnion(m, ks) == UnlockedBadges(MaxCurrent(m, ks), now)
    decreases |ks|
  {
    if ks == [] {
      UnlockedBadgesExtremes(0, now);
    } else {
      var front, last := ks[..|ks| - 1], ks[|ks| - 1];
      assert ks == front + [last];
      BadgeUnionIsLongestStreaksBadges(m, front, now);
      var m0, c := MaxCurrent(m, front), m[last].currentStreak;
      var u0, uc := UnlockedBadges(m0, now), UnlockedBadges(c, now);
      AddNewCatalogPrefixes(|u0|, |uc|, now);
      if m0 <= c {
        UnlockedBadgesMonotone(m0, c, now);
      } else {
        UnlockedBadgesMonotone(c, m0, now);
      }
    }
  }

  /** `getStreakStats`' result. */
  datatype StreakStats = StreakStats(
    totalActiveStreaks: nat,
    longestStreak: nat,
    totalBadges: nat,
    habitStreaks: map<string, StreakData>)

  /**
   * `getStreakStats`: the streak map, how many habits are active, the
   * longest current streak, and the badge count, which is the number of
   * milestones the longest current streak reaches.
   */
  method GetStreakStats(habits: seq<Activity>, logs: seq<ActivityLog>, today: Today, now: int, order: seq<string>)
    returns (stats: StreakStats)
    requires IsIdOrder(order, habits)
    ensures IsKeyOrder(order, AllStreakData(habits, logs, today, now))
    ensures stats.habitStreaks == AllStreakData(habits, logs, today, now)
    ensures stats.totalActiveStreaks == TotalActiveStreaks(stats.habitStreaks, order)
    ensures stats.totalActiveStreaks <= |habits|
    ensures stats.longestStreak == LongestActiveStreak(stats.habitStreaks, order)
    ensures stats.totalBadges == |UnlockedBadges(stats.longestStreak, now)| <= |MILESTONE_BADGES|
    ensures stats.totalBadges == ReachedCount(stats.longestStreak)
  {
    var habitStreaks := GetAllStreakData(habits, logs, today, now);
    IdOrderIsKeyOrder(habits, logs, today, now, order);
    var activeStreaks := CountActive(habitStreaks, order);
    var longestStreak := MaxCurrent(habitStreaks, order);
    var allBadges := GetAllUnlockedBadges(habits, logs, today, now, order);
    AllStreakDataBadgesFollowCurrent(habits, logs, today, now);
    BadgeUnionIsLongestStreaksBadges(habitStreaks, order, now);
    stats := StreakStats(activeStreaks, longestStreak, |allBadges|, habitStreaks);
  }
}
