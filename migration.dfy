/**
 * The record transforms of migrate_data.ts: stored habits gain a type,
 * archive and pin flags and an update time; stored logs gain an
 * `activityId` copied from the older `habitId`. Records are JSON objects,
 * modelled as maps from field names to JSON values; `Date.now()` becomes
 * the `now` parameter.
 */
module Migration {
  /** A JSON value as far as JavaScript truthiness can tell it apart. */
  datatype Json =
    | JUndefined
    | JNull
    | JBool(b: bool)
    | JNum(n: int)
    | JStr(s: string)
    | JComposite   // an array or an object: always truthy

  /** A stored JSON object. */
  type JsonRecord = map<string, Json>

  /** JavaScript truthiness: `undefined`, `null`, `false`, `0` and `""` are falsy. */
  predicate Truthy(v: Json) {
    match v
    case JUndefined => false
    case JNull => false
    case JBool(b) => b
    case JNum(n) => n != 0
    case JStr(s) => s != ""
    case JComposite => true
  }

  /** `a || b`: the first operand when truthy, otherwise the second. */
  function Or(a: Json, b: Json): (r: Json)
    ensures r == a || r == b
    ensures Truthy(r) <==> Truthy(a) || Truthy(b)
    ensures Truthy(a) ==> r == a
  {
    if Truthy(a) then a else b
  }

  /** Property access: a missing field reads as `undefined`. */
  function Get(r: JsonRecord, field: string): Json {
    if field in r then r[field] else JUndefined
  }

  /** The four fields the habit migration writes. */
  const HABIT_DEFAULTED: set<string> := {"type", "archived", "pinned", "updatedAt"}

  /** `{ ...habit, type: …, archived: …, pinned: …, updatedAt: … }`. */
  function MigrateHabit(habit: JsonRecord, now: int): (r: JsonRecord)
    ensures r.Keys == habit.Keys + HABIT_DEFAULTED
    ensures forall f :: f in habit && f !in HABIT_DEFAULTED ==> r[f] == habit[f]
    ensures r["type"] == (if Truthy(Get(habit, "type")) then habit["type"] else JStr("habit"))
    ensures r["archived"] == (if Truthy(Get(habit, "archived")) then habit["archived"] else JBool(false))
    ensures r["pinned"] == (if Truthy(Get(habit, "pinned")) then habit["pinned"] else JBool(false))
    ensures r["updatedAt"] ==
      if Truthy(Get(habit, "updatedAt")) then habit["updatedAt"]
      else if Truthy(Get(habit, "createdAt")) then habit["createdAt"]
      else JNum(now)
  {
    habit["type" := Or(Get(habit, "type"), JStr("habit"))]
         ["archived" := Or(Get(habit, "archived"), JBool(false))]
         ["pinned" := Or(Get(habit, "pinned"), JBool(false))]
         ["updatedAt" := Or(Or(Get(habit, "updatedAt"), Get(habit, "createdAt")), JNum(now))]
  }

  /** `{ ...log, activityId: log.activityId || log.habitId }`. */
  function MigrateLog(log: JsonRecord): (r: JsonRecord)
    ensures r.Keys == log.Keys + {"activityId"}
    ensures forall f :: f in log && f != "activityId" ==> r[f] == log[f]
    ensures r["activityId"] == (if Truthy(Get(log, "activityId")) then log["activityId"] else Get(log, "habitId"))
  {
    log["activityId" := Or(Get(log, "activityId"), Get(log, "habitId"))]
  }

  /** `habits.map(migrateHabit)`. */
  function MigrateHabits(habits: seq<JsonRecord>, now: int): (r: seq<JsonRecord>)
    ensures |r| == |habits|
    ensures forall i :: 0 <= i < |habits| ==> r[i] == MigrateHabit(habits[i], now)
  {
    if |habits| == 0 then [] else MigrateHabits(habits[..|habits| - 1], now) + [MigrateHabit(habits[|habits| - 1], now)]
  }

  /** `logs.map(migrateLog)`. */
  function MigrateLogs(logs: seq<JsonRecord>): (r: seq<JsonRecord>)
    ensures |r| == |logs|
    ensures forall i :: 0 <= i < |logs| ==> r[i] == MigrateLog(logs[i])
  {
    if |logs| == 0 then [] else MigrateLogs(logs[..|logs| - 1]) + [MigrateLog(logs[|logs| - 1])]
  }

  /**
   * A migrated habit is complete: it has a truthy type and update time
   * (the clock is never at the epoch) and boolean-or-kept flags.
   */
  lemma MigratedHabitIsComplete(habit: JsonRecord, now: int)
    requires now > 0
    ensures Truthy(MigrateHabit(habit, now)["type"])
    ensures Truthy(MigrateHabit(habit, now)["updatedAt"])
    ensures "archived" in MigrateHabit(habit, now) && "pinned" in MigrateHabit(habit, now)
  {
  }

  /**
   * Running the migration again changes nothing, whatever the clock then
   * reads: the app may run it at every start.
   */
  lemma MigrateHabitIsIdempotent(habit: JsonRecord, now: int, later: int)
    requires now > 0
    ensures MigrateHabit(MigrateHabit(habit, now), later) == MigrateHabit(habit, now)
  {
    var once := MigrateHabit(habit, now);
    var twice := MigrateHabit(once, later);
    assert twice.Keys == once.Keys;
    forall f | f in once
      ensures twice[f] == once[f]
    {
      if f == "archived" || f == "pinned" {
        assert Truthy(Get(once, f)) || once[f] == JBool(false);
      }
    }
  }

  /** The log migration is idempotent as well. */
  lemma MigrateLogIsIdempotent(log: JsonRecord)
    ensures MigrateLog(MigrateLog(log)) == MigrateLog(log)
  {
    var once := MigrateLog(log);
    assert once.Keys == MigrateLog(once).Keys;
  }

  /** A log written before activities existed points, after migration, at its old habit. */
  lemma LegacyLogPointsAtItsHabit(log: JsonRecord)
    requires "activityId" !in log && "habitId" in log
    ensures MigrateLog(log)["activityId"] == log["habitId"]
  {
  }

  /** Both list migrations are idempotent, element by element and in order. */
  lemma MigrateListsAreIdempotent(habits: seq<JsonRecord>, logs: seq<JsonRecord>, now: int, later: int)
    requires now > 0
    ensures MigrateHabits(MigrateHabits(habits, now), later) == MigrateHabits(habits, now)
    ensures MigrateLogs(MigrateLogs(logs)) == MigrateLogs(logs)
  {
    forall i | 0 <= i < |habits|
      ensures MigrateHabits(MigrateHabits(habits, now), later)[i] == MigrateHabits(habits, now)[i]
    {
      MigrateHabitIsIdempotent(habits[i], now, later);
    }
    forall i | 0 <= i < |logs|
      ensures MigrateLogs(MigrateLogs(logs))[i] == MigrateLogs(logs)[i]
    {
      MigrateLogIsIdempotent(logs[i]);
    }
  }
}
