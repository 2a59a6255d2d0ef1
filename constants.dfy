/** The constant data of lib/constants.ts: category styles, the default badge catalog, sample habits. */
module Constants {
  import opened Types
  import opened Seqs
  import opened BadgeUnlock

  datatype CategoryStyle = CategoryStyle(icon: string, color: string)

  /** The key under which each category is stored. */
  function CategoryKey(c: Category): string {
    match c
    case Health => "health"
    case Productivity => "productivity"
    case Learning => "learning"
    case Social => "social"
    case Creative => "creative"
  }

  const HabitCategories: map<string, CategoryStyle> := map[
    "health" := CategoryStyle("\U{1F4AA}", "bg-green-500"),
    "productivity" := CategoryStyle("\U{26A1}", "bg-blue-500"),
    "learning" := CategoryStyle("\U{1F4DA}", "bg-purple-500"),
    "social" := CategoryStyle("\U{1F465}", "bg-pink-500"),
    "creative" := CategoryStyle("\U{1F3A8}", "bg-orange-500")
  ]

  /** The category table has exactly one entry per habit category. */
  lemma HabitCategoriesKeys()
    ensures HabitCategories.Keys == {"health", "productivity", "learning", "social", "creative"}
    ensures forall c: Category :: CategoryKey(c) in HabitCategories
    ensures forall c: Category, d: Category :: c != d ==> CategoryKey(c) != CategoryKey(d)
  {
  }

  const DefaultBadges: seq<Badge> := [
    Badge("first-step", "First Step", "Log your first habit", "\U{1F331}",
      UnlockCriteria(MilestoneCriteria, 1, None), Common),
    Badge("week-warrior", "Week Warrior", "Maintain a 7-day streak", "\U{1F31F}",
      UnlockCriteria(StreakCriteria, 7, None), Common),
    Badge("month-master", "Month Master", "Maintain a 30-day streak", "\U{1F525}",
      UnlockCriteria(StreakCriteria, 30, None), Rare),
    Badge("century-club", "Century Club", "Maintain a 100-day streak", "\U{1F48E}",
      UnlockCriteria(StreakCriteria, 100, None), Epic),
    Badge("legend", "Legend", "Maintain a 365-day streak", "\U{1F3C6}",
      UnlockCriteria(StreakCriteria, 365, None), Legendary)
  ]

  /** Five badges with distinct ids; first-step is a milestone badge with value 1. */
  lemma DefaultBadgesShape()
    ensures |DefaultBadges| == 5 && DistinctIds(DefaultBadges)
    ensures DefaultBadges[0].id == "first-step"
    ensures DefaultBadges[0].unlockCriteria.kind == MilestoneCriteria && DefaultBadges[0].unlockCriteria.value == 1
  {
  }

  /** The other four are streak badges with strictly increasing thresholds 7, 30, 100, 365. */
  lemma DefaultStreakThresholds()
    ensures forall i :: 1 <= i < |DefaultBadges| ==> DefaultBadges[i].unlockCriteria.kind == StreakCriteria
    ensures forall i, j :: 1 <= i < j < |DefaultBadges| ==>
      DefaultBadges[i].unlockCriteria.value < DefaultBadges[j].unlockCriteria.value
    ensures [DefaultBadges[1].unlockCriteria.value, DefaultBadges[2].unlockCriteria.value,
             DefaultBadges[3].unlockCriteria.value, DefaultBadges[4].unlockCriteria.value] == [7, 30, 100, 365]
  {
  }

  /** 2024-01-01 as a count of days since 1970-01-01. */
  const Jan1st2024: Day := 19723

  const SampleHabits: seq<Habit> := [
    Habit("1", "user1", "Drink Water", "Drink 8 glasses of water daily", "8 glasses", Jan1st2024, true,
      StreakMetadata(12, 15, Some(Jan1st2024 + 11)), Health, "\U{1F4A7}"),
    Habit("2", "user1", "Read", "Read for 30 minutes", "30 minutes", Jan1st2024, true,
      StreakMetadata(8, 10, Some(Jan1st2024 + 10)), Learning, "\U{1F4DA}"),
    Habit("3", "user1", "Exercise", "Do 30 minutes of exercise", "30 minutes", Jan1st2024, true,
      StreakMetadata(5, 7, Some(Jan1st2024 + 9)), Health, "\U{1F3C3}")
  ]

  /** Every sample habit has longestStreak >= currentStreak, and the sample ids are distinct. */
  lemma SampleHabitsConsistent()
    ensures forall h :: h in SampleHabits ==> h.streakMetadata.longestStreak >= h.streakMetadata.currentStreak
    ensures forall i, j :: 0 <= i < j < |SampleHabits| ==> SampleHabits[i].id != SampleHabits[j].id
  {
  }
}
