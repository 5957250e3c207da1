/**
 * The habit category catalog of constants/categories.ts and its two
 * lookups, by id and by display name.
 */
module Categories {
  import opened Options

  datatype HabitCategory = HabitCategory(
    id: string,
    name: string,
    icon: string,
    color: string,
    backgroundColor: string)

  /** `HABIT_CATEGORIES`: eighteen categories, in display order. */
  const HABIT_CATEGORIES: seq<HabitCategory> := [
    HabitCategory("health", "Health", "💚", "#4CAF50", "#1B5E20"),
    HabitCategory("exercise", "Exercise", "💪", "#FF6B6B", "#C62828"),
    HabitCategory("meditation", "Meditation", "🧘", "#9C27B0", "#4A148C"),
    HabitCategory("reading", "Reading", "📚", "#2196F3", "#0D47A1"),
    HabitCategory("work", "Work", "💼", "#FF9800", "#E65100"),
    HabitCategory("learning", "Learning", "🎓", "#673AB7", "#311B92"),
    HabitCategory("art", "Art", "🎨", "#E91E63", "#880E4F"),
    HabitCategory("music", "Music", "🎵", "#00BCD4", "#006064"),
    HabitCategory("cooking", "Cooking", "👨‍🍳", "#FFC107", "#F57F17"),
    HabitCategory("sports", "Sports", "⚽", "#4CAF50", "#1B5E20"),
    HabitCategory("travel", "Travel", "✈️", "#00BCD4", "#006064"),
    HabitCategory("socializing", "Socializing", "👥", "#FF6B9D", "#C2185B"),
    HabitCategory("writing", "Writing", "✍️", "#8B4513", "#5D4037"),
    HabitCategory("gaming", "Gaming", "🎮", "#9C27B0", "#4A148C"),
    HabitCategory("productivity", "Productivity", "✅", "#4CAF50", "#1B5E20"),
    HabitCategory("mindfulness", "Mindfulness", "🧠", "#673AB7", "#311B92"),
    HabitCategory("hobby", "Hobby", "🎯", "#FF9800", "#E65100"),
    HabitCategory("other", "Other", "⭐", "#607D8B", "#37474F")
  ]

  /**
   * `Array.prototype.find` on a field: the first category whose `field`
   * equals `value`, or nothing when none does.
   */
  function Find(cats: seq<HabitCategory>, field: HabitCategory -> string, value: string): (r: Option<HabitCategory>)
    ensures r.None? <==> forall c :: c in cats ==> field(c) != value
    ensures r.Some? ==> exists i :: (0 <= i < |cats| && cats[i] == r.value && field(cats[i]) == value &&
      forall j :: 0 <= j < i ==> field(cats[j]) != value)
  {
    if |cats| == 0 then None
    else if field(cats[0]) == value then Some(cats[0])
    else
      var rest := Find(cats[1..], field, value);
      assert forall c :: c in cats ==> c == cats[0] || c in cats[1..];
      if rest.Some? then
        ghost var i :| 0 <= i < |cats[1..]| && cats[1..][i] == rest.value && field(cats[1..][i]) == value &&
          forall j :: 0 <= j < i ==> field(cats[1..][j]) != value;
        assert cats[i + 1] == rest.value && forall j :: 1 <= j < i + 1 ==> field(cats[j]) == field(cats[1..][j - 1]);
        rest
      else rest
  }

  /** In a list whose `field` values are pairwise distinct, each entry is found by its own value. */
  lemma FindDistinct(cats: seq<HabitCategory>, field: HabitCategory -> string, k: nat)
    requires k < |cats|
    requires forall i, j :: 0 <= i < j < |cats| ==> field(cats[i]) != field(cats[j])
    ensures Find(cats, field, field(cats[k])) == Some(cats[k])
  {
    var r := Find(cats, field, field(cats[k]));
    var i :| 0 <= i < |cats| && cats[i] == r.value && field(cats[i]) == field(cats[k]) &&
      forall j :: 0 <= j < i ==> field(cats[j]) != field(cats[k]);
    assert i == k;
  }

  /** `getCategoryById`. */
  function GetCategoryById(id: string): (r: Option<HabitCategory>)
    ensures r.Some? ==> r.value in HABIT_CATEGORIES && r.value.id == id
    ensures r.None? <==> forall c :: c in HABIT_CATEGORIES ==> c.id != id
  {
    Find(HABIT_CATEGORIES, (c: HabitCategory) => c.id, id)
  }

  /** `getCategoryByName`: the match is on the exact display name, case included. */
  function GetCategoryByName(name: string): (r: Option<HabitCategory>)
    ensures r.Some? ==> r.value in HABIT_CATEGORIES && r.value.name == name
    ensures r.None? <==> forall c :: c in HABIT_CATEGORIES ==> c.name != name
  {
    Find(HABIT_CATEGORIES, (c: HabitCategory) => c.name, name)
  }

  /** No two catalog categories share an id or a display name. */
  lemma CatalogIdsAndNamesAreDistinct()
    ensures forall i, j :: 0 <= i < j < |HABIT_CATEGORIES| ==> HABIT_CATEGORIES[i].id != HABIT_CATEGORIES[j].id
    ensures forall i, j :: 0 <= i < j < |HABIT_CATEGORIES| ==> HABIT_CATEGORIES[i].name != HABIT_CATEGORIES[j].name
  {
  }

  /** Every catalog category is found by its own id and by its own name. */
  lemma LookupsFindEachCategory(c: HabitCategory)
    requires c in HABIT_CATEGORIES
    ensures GetCategoryById(c.id) == Some(c)
    ensures GetCategoryByName(c.name) == Some(c)
  {
    CatalogIdsAndNamesAreDistinct();
    var k :| 0 <= k < |HABIT_CATEGORIES| && HABIT_CATEGORIES[k] == c;
    FindDistinct(HABIT_CATEGORIES, (c: HabitCategory) => c.id, k);
    FindDistinct(HABIT_CATEGORIES, (c: HabitCategory) => c.name, k);
  }
}
