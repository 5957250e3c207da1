/**
 * The milestone badge catalog of lib/streak-tracker.ts and the filter that
 * hands out the badges a streak has reached. The `Date.now()` stamp becomes
 * the `now` parameter.
 */
module Badges {
  import opened Options

  datatype Badge = Badge(
    id: string,
    name: string,
    description: string,
    icon: string,
    milestone: int,
    unlockedAt: Option<int>,
    color: string)

  /** `MILESTONE_BADGES`: five streak lengths, in ascending order. */
  const MILESTONE_BADGES: seq<Badge> := [
    Badge("streak_7", "Week Warrior", "7-day streak", "🔥", 7, None, "#FF6B6B"),
    Badge("streak_14", "Fortnight Fighter", "14-day streak", "⚡", 14, None, "#4ECDC4"),
    Badge("streak_30", "Monthly Master", "30-day streak", "🌟", 30, None, "#FFD93D"),
    Badge("streak_100", "Century Champion", "100-day streak", "👑", 100, None, "#6BCB77"),
    Badge("streak_365", "Eternal Legend", "365-day streak", "🏆", 365, None, "#FF006E")
  ]

  /** `{ ...badge, unlockedAt: now }`. */
  function Stamp(b: Badge, now: int): Badge {
    b.(unlockedAt := Some(now))
  }

  /** The first `k` catalog badges, each stamped with `now`. */
  function StampedPrefix(k: nat, now: int): (r: seq<Badge>)
    requires k <= |MILESTONE_BADGES|
    ensures |r| == k
    ensures forall i :: 0 <= i < k ==> r[i] == Stamp(MILESTONE_BADGES[i], now)
  {
    seq(k, i requires 0 <= i < k => Stamp(MILESTONE_BADGES[i], now))
  }

  /** Milestones never decrease along a badge list. */
  ghost predicate AscendingMilestones(bs: seq<Badge>) {
    forall i, j :: 0 <= i < j < |bs| ==> bs[i].milestone <= bs[j].milestone
  }

  /** No two badges of a list share an id. */
  ghost predicate DistinctIds(bs: seq<Badge>) {
    forall i, j :: 0 <= i < j < |bs| ==> bs[i].id != bs[j].id
  }

  lemma CatalogIsOrderedAndDistinct()
    ensures AscendingMilestones(MILESTONE_BADGES)
    ensures DistinctIds(MILESTONE_BADGES)
  {
  }

  /** `bs.filter(b => streak >= b.milestone).map(Stamp)`. */
  function Reached(bs: seq<Badge>, streak: int, now: int): (r: seq<Badge>)
    ensures |r| <= |bs|
    ensures forall i :: 0 <= i < |r| ==> r[i].milestone <= streak && r[i].unlockedAt == Some(now)
  {
    if bs == [] then []
    else if bs[0].milestone <= streak then [Stamp(bs[0], now)] + Reached(bs[1..], streak, now)
    else Reached(bs[1..], streak, now)
  }

  /**
   * On a list with ascending milestones the reached badges are a prefix of
   * the list, cut just before the first milestone the streak misses.
   */
  lemma {:induction false} ReachedIsPrefix(bs: seq<Badge>, streak: int, now: int)
    requires AscendingMilestones(bs)
    ensures forall i :: 0 <= i < |Reached(bs, streak, now)| ==> Reached(bs, streak, now)[i] == Stamp(bs[i], now)
    ensures |Reached(bs, streak, now)| < |bs| ==> streak < bs[|Reached(bs, streak, now)|].milestone
  {
    if bs != [] {
      assert AscendingMilestones(bs[1..]);
      ReachedIsPrefix(bs[1..], streak, now);
    }
  }

  /** How many catalog milestones a streak of this length reaches. */
  function ReachedCount(streak: int): (k: nat)
    ensures k <= |MILESTONE_BADGES|
    ensures forall i :: 0 <= i < |MILESTONE_BADGES| ==> (i < k <==> MILESTONE_BADGES[i].milestone <= streak)
  {
    if streak >= 365 then 5
    else if streak >= 100 then 4
    else if streak >= 30 then 3
    else if streak >= 14 then 2
    else if streak >= 7 then 1
    else 0
  }

  /**
   * `getUnlockedBadges`: exactly the catalog badges whose milestone the
   * streak has reached, in catalog order, stamped with `now`. This is a
   * prefix of the catalog.
   */
  function UnlockedBadges(streak: int, now: int): (r: seq<Badge>)
    ensures |r| <= |MILESTONE_BADGES|
    ensures forall i :: 0 <= i < |MILESTONE_BADGES| ==>
      (i < |r| <==> MILESTONE_BADGES[i].milestone <= streak)
    ensures r == StampedPrefix(|r|, now)
    ensures |r| == ReachedCount(streak)
  {
    CatalogIsOrderedAndDistinct();
    ReachedIsPrefix(MILESTONE_BADGES, streak, now);
    var r := Reached(MILESTONE_BADGES, streak, now);
    var k := ReachedCount(streak);
    assert k < |MILESTONE_BADGES| ==> streak < MILESTONE_BADGES[k].milestone;
    assert |r| < |MILESTONE_BADGES| ==> streak < MILESTONE_BADGES[|r|].milestone;
    r
  }

  /** A longer streak unlocks every badge a shorter one does, and maybe more. */
  lemma UnlockedBadgesMonotone(s1: int, s2: int, now: int)
    requires s1 <= s2
    ensures |UnlockedBadges(s1, now)| <= |UnlockedBadges(s2, now)|
    ensures UnlockedBadges(s1, now) == UnlockedBadges(s2, now)[..|UnlockedBadges(s1, now)|]
  {
    var a, b := UnlockedBadges(s1, now), UnlockedBadges(s2, now);
    if |b| < |MILESTONE_BADGES| {
      assert s1 <= s2 < MILESTONE_BADGES[|b|].milestone;
    }
    assert |a| <= |b|;
    assert a == StampedPrefix(|a|, now) && b == StampedPrefix(|b|, now);
  }

  /** A streak under seven days unlocks nothing; one of a year unlocks all five. */
  lemma UnlockedBadgesExtremes(streak: int, now: int)
    ensures streak < 7 ==> UnlockedBadges(streak, now) == []
    ensures streak >= 365 ==> |UnlockedBadges(streak, now)| == 5
  {
    var r := UnlockedBadges(streak, now);
    assert MILESTONE_BADGES[0].milestone == 7 && MILESTONE_BADGES[4].milestone == 365;
    assert 0 < |r| <==> 7 <= streak;
    assert 4 < |r| <==> 365 <= streak;
  }
}
