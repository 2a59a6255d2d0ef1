/**
 * The client-side demo dashboard of components/HabitDashboard.tsx: its three pieces of state
 * (habits, streak logs, earned badge ids), the log handler with its badge check, and the
 * summary helpers the page shows.
 */
module Dashboard {
  import opened Types
  import opened Seqs
  import opened Streak
  import opened BadgeUnlock
  import opened Constants

  /** One habit after a log from the dashboard: the same streak rule as the server. */
  function LogOne(h: Habit, completed: bool, today: Day): Habit
  {
    h.(streakMetadata := NextMeta(h.streakMetadata, completed, today))
  }

  /** The habit list after logging `habitId`: every habit with that id is updated. */
  function UpdatedHabits(hs: seq<Habit>, habitId: HabitId, completed: bool, today: Day): (r: seq<Habit>)
    ensures |r| == |hs|
  {
    if hs == [] then []
    else
      [if hs[0].id == habitId then LogOne(hs[0], completed, today) else hs[0]]
        + UpdatedHabits(hs[1..], habitId, completed, today)
  }

  /**
   * Only the habits with the logged id change, and only in their streak metadata: the streak
   * is one more on a completion and 0 on a skip, the longest is the larger of the old longest
   * and the new streak, and the last logged date becomes today.
   */
  lemma {:induction false} UpdatedHabitsEffect(hs: seq<Habit>, habitId: HabitId, completed: bool, today: Day)
    ensures var r := UpdatedHabits(hs, habitId, completed, today);
      forall i :: 0 <= i < |hs| ==>
        if hs[i].id != habitId then r[i] == hs[i]
        else
          var m, n := hs[i].streakMetadata, r[i].streakMetadata;
          r[i] == hs[i].(streakMetadata := n) &&
          n.currentStreak == (if completed then m.currentStreak + 1 else 0) &&
          n.longestStreak == Max(m.longestStreak, n.currentStreak) &&
          n.lastLoggedDate == Some(today)
  {
    if hs != [] {
      UpdatedHabitsEffect(hs[1..], habitId, completed, today);
      var r := UpdatedHabits(hs, habitId, completed, today);
      forall i | 1 <= i < |hs| ensures r[i] == UpdatedHabits(hs[1..], habitId, completed, today)[i - 1] && hs[i] == hs[1..][i - 1] {
      }
    }
  }

  /** Every habit keeps longestStreak >= currentStreak. */
  predicate LongestCoversCurrent(hs: seq<Habit>) {
    forall i :: 0 <= i < |hs| ==> hs[i].streakMetadata.longestStreak >= hs[i].streakMetadata.currentStreak
  }

  /** A log keeps longestStreak >= currentStreak for every habit, and no longest shrinks. */
  lemma UpdatedHabitsKeepLongest(hs: seq<Habit>, habitId: HabitId, completed: bool, today: Day)
    ensures var r := UpdatedHabits(hs, habitId, completed, today);
      (LongestCoversCurrent(hs) ==> LongestCoversCurrent(r)) &&
      forall i :: 0 <= i < |hs| ==> r[i].streakMetadata.longestStreak >= hs[i].streakMetadata.longestStreak
  {
    UpdatedHabitsEffect(hs, habitId, completed, today);
  }

  /** The number of listed habits with the given id. */
  function Occurrences(hs: seq<Habit>, habitId: HabitId): (r: nat)
    ensures r <= |hs|
    ensures r == 0 <==> forall i :: 0 <= i < |hs| ==> hs[i].id != habitId
  {
    if hs == [] then 0
    else
      assert forall i :: 1 <= i < |hs| ==> hs[i] == hs[1..][i - 1];
      (if hs[0].id == habitId then 1 else 0) + Occurrences(hs[1..], habitId)
  }

  /** A completion raises the total active streak by one per habit logged; a skip never raises it. */
  lemma {:induction false} TotalAfterLog(hs: seq<Habit>, habitId: HabitId, completed: bool, today: Day)
    ensures completed ==>
      TotalCurrentStreak(UpdatedHabits(hs, habitId, completed, today)) == TotalCurrentStreak(hs) + Occurrences(hs, habitId)
    ensures !completed ==>
      TotalCurrentStreak(UpdatedHabits(hs, habitId, completed, today)) <= TotalCurrentStreak(hs)
  {
    if hs != [] {
      TotalAfterLog(hs[1..], habitId, completed, today);
      assert UpdatedHabits(hs, habitId, completed, today)[1..] == UpdatedHabits(hs[1..], habitId, completed, today);
    }
  }

  /** `isHabitLoggedToday`: the habit's last logged date is today. */
  predicate LoggedOn(h: Habit, today: Day) {
    h.streakMetadata.lastLoggedDate == Some(today)
  }

  /** `getHabitsLoggedToday`: how many habits were last logged today. */
  function LoggedTodayCount(hs: seq<Habit>, today: Day): (r: nat)
    ensures r <= |hs|
    ensures r == 0 <==> forall i :: 0 <= i < |hs| ==> !LoggedOn(hs[i], today)
    ensures r == |hs| <==> forall i :: 0 <= i < |hs| ==> LoggedOn(hs[i], today)
  {
    if hs == [] then 0
    else
      assert forall i :: 1 <= i < |hs| ==> hs[i] == hs[1..][i - 1];
      (if LoggedOn(hs[0], today) then 1 else 0) + LoggedTodayCount(hs[1..], today)
  }

  /** After a log, at least as many habits count as logged today, and the logged ones all do. */
  lemma {:induction false} LoggedTodayAfterLog(hs: seq<Habit>, habitId: HabitId, completed: bool, today: Day)
    ensures var n := LoggedTodayCount(UpdatedHabits(hs, habitId, completed, today), today);
      n >= LoggedTodayCount(hs, today) && n >= Occurrences(hs, habitId)
  {
    if hs != [] {
      LoggedTodayAfterLog(hs[1..], habitId, completed, today);
      assert UpdatedHabits(hs, habitId, completed, today)[1..] == UpdatedHabits(hs[1..], habitId, completed, today);
    }
  }

  /** The card variant of `getHabitVariant`. */
  datatype Variant = Completed | Missed | Active

  function HabitVariant(h: Habit, today: Day): Variant
  {
    if LoggedOn(h, today) then (if h.streakMetadata.currentStreak > 0 then Completed else Missed)
    else Active
  }

  /**
   * A habit last logged today shows as completed when its streak is positive and as missed
   * when it is 0; a habit not logged today, or never logged, shows as active.
   */
  lemma HabitVariantCases(h: Habit, today: Day)
    ensures HabitVariant(h, today) == Completed <==>
      h.streakMetadata.lastLoggedDate == Some(today) && h.streakMetadata.currentStreak > 0
    ensures HabitVariant(h, today) == Missed <==>
      h.streakMetadata.lastLoggedDate == Some(today) && h.streakMetadata.currentStreak == 0
    ensures HabitVariant(h, today) == Active <==> h.streakMetadata.lastLoggedDate != Some(today)
  {
  }

  /** A habit just completed shows as completed, one just skipped as missed. */
  lemma VariantAfterLog(hs: seq<Habit>, habitId: HabitId, completed: bool, today: Day)
    ensures var r := UpdatedHabits(hs, habitId, completed, today);
      forall i :: 0 <= i < |hs| && hs[i].id == habitId ==>
        HabitVariant(r[i], today) == if completed then Completed else Missed
  {
    UpdatedHabitsEffect(hs, habitId, completed, today);
  }

  /** `habits.find(h => h.id === habitId)`. */
  function FindHabit(hs: seq<Habit>, habitId: HabitId): (r: Option<Habit>)
    ensures r.Some? ==> r.value in hs && r.value.id == habitId
    ensures r.None? ==> forall i :: 0 <= i < |hs| ==> hs[i].id != habitId
  {
    if hs == [] then None
    else if hs[0].id == habitId then Some(hs[0])
    else
      assert forall i :: 1 <= i < |hs| ==> hs[i] == hs[1..][i - 1];
      FindHabit(hs[1..], habitId)
  }

  /**
   * The badge ids `checkForNewBadges` adds: none for a skip or an unknown habit; otherwise the
   * default badges not yet earned whose streak threshold the habit's streak plus one reaches,
   * checked against the earned list as it was before the log.
   */
  function NewlyEarned(catalog: seq<Badge>, hs: seq<Habit>, earned: seq<BadgeId>, habitId: HabitId, completed: bool): seq<BadgeId>
  {
    if !completed then []
    else match FindHabit(hs, habitId)
      case None => []
      case Some(h) => Ids(Eligible(catalog, earned, h.streakMetadata.currentStreak + 1))
  }

  /**
   * The ids of the eligible badges of a catalog with distinct ids are exactly those of the
   * catalog's badges not yet earned that qualify, and they keep a duplicate-free earned list so.
   */
  lemma EligibleIdsSpec(catalog: seq<Badge>, earned: seq<BadgeId>, n: int)
    requires DistinctIds(catalog)
    ensures var added := Ids(Eligible(catalog, earned, n));
      (forall id :: id in added <==>
        exists b :: b in catalog && b.id == id && b.id !in earned && Qualifies(b, n)) &&
      (NoDup(earned) ==> NoDup(earned + added))
  {
    var e := Eligible(catalog, earned, n);
    EligibleSound(catalog, earned, n);
    forall id | id in Ids(e) ensures exists b :: b in catalog && b.id == id && b.id !in earned && Qualifies(b, n) {
      var k :| 0 <= k < |Ids(e)| && Ids(e)[k] == id;
      assert e[k] in e;
    }
    forall id | exists b :: b in catalog && b.id == id && b.id !in earned && Qualifies(b, n)
      ensures id in Ids(e)
    {
      var b :| b in catalog && b.id == id && b.id !in earned && Qualifies(b, n);
      var k :| 0 <= k < |e| && e[k] == b;
      assert Ids(e)[k] == id;
    }
    UnlockedIsEligible(catalog, earned, n);
    if NoDup(earned) {
      UnlockedNoDup(catalog, earned, n);
    }
  }

  /**
   * Exactly the streak badges of the catalog not yet earned whose threshold is reached,
   * and only after a completion of a known habit; the earned list stays free of duplicates.
   */
  lemma NewlyEarnedSpec(catalog: seq<Badge>, hs: seq<Habit>, earned: seq<BadgeId>, habitId: HabitId, completed: bool)
    requires DistinctIds(catalog)
    ensures var added := NewlyEarned(catalog, hs, earned, habitId, completed);
      (added != [] ==> completed && FindHabit(hs, habitId).Some?) &&
      (completed && FindHabit(hs, habitId).Some? ==>
        var n := FindHabit(hs, habitId).value.streakMetadata.currentStreak + 1;
        forall id :: id in added <==>
          exists b :: b in catalog && b.id == id && b.id !in earned && Qualifies(b, n)) &&
      (NoDup(earned) ==> NoDup(earned + added))
  {
    if completed && FindHabit(hs, habitId).Some? {
      var n := FindHabit(hs, habitId).value.streakMetadata.currentStreak + 1;
      assert NewlyEarned(catalog, hs, earned, habitId, completed) == Ids(Eligible(catalog, earned, n));
      EligibleIdsSpec(catalog, earned, n);
    }
  }

  /** The badge loop of `checkForNewBadges` over a catalog: the eligible ids, in catalog order. */
  method EligibleScan(catalog: seq<Badge>, seen: seq<BadgeId>, newStreak: int) returns (added: seq<BadgeId>)
    ensures added == Ids(Eligible(catalog, seen, newStreak))
  {
    added := [];
    ghost var badges: seq<Badge> := [];
    for i := 0 to |catalog|
      invariant added == Ids(badges)
      invariant badges + Eligible(catalog[i..], seen, newStreak) == Eligible(catalog, seen, newStreak)
    {
      var badge := catalog[i];
      assert Eligible(catalog[i..], seen, newStreak) ==
        (if badge.id !in seen && Qualifies(badge, newStreak) then [badge] else []) + Eligible(catalog[i + 1..], seen, newStreak) by {
        assert catalog[i..][1..] == catalog[i + 1..];
      }
      if badge.id !in seen && Qualifies(badge, newStreak) {
        assert Ids(badges + [badge]) == Ids(badges) + [badge.id];
        added := added + [badge.id];
        badges := badges + [badge];
      }
    }
    assert catalog[|catalog|..] == [];
  }

  /** The dashboard's component state. */
  class Dashboard {
    var habits: seq<Habit>
    var streakLogs: seq<StreakLog>
    var earnedBadges: seq<BadgeId>

    /** Every habit's longest covers its current streak; first-step stays earned, once. */
    ghost predicate Valid()
      reads this
    {
      LongestCoversCurrent(habits) && "first-step" in earnedBadges && NoDup(earnedBadges)
    }

    /** The initial state: the sample habits, no logs, first-step earned. */
    constructor()
      ensures Valid()
      ensures habits == SampleHabits && streakLogs == [] && earnedBadges == ["first-step"]
    {
      habits := SampleHabits;
      streakLogs := [];
      earnedBadges := ["first-step"];
      SampleHabitsConsistent();
    }

    /** `checkForNewBadges`: appends each newly earned id, testing against the earned list it started with. */
    method CheckForNewBadges(habitId: HabitId, completed: bool)
      modifies this`earnedBadges
      ensures earnedBadges == old(earnedBadges) + NewlyEarned(DefaultBadges, habits, old(earnedBadges), habitId, completed)
    {
      if !completed {
        return;
      }
      var habit := FindHabit(habits, habitId);
      if habit.None? {
        return;
      }
      var newStreak := habit.value.streakMetadata.currentStreak + 1;
      var added := EligibleScan(DefaultBadges, earnedBadges, newStreak);
      earnedBadges := earnedBadges + added;
    }

    /** `handleLogHabit`: updates the habit, appends one log, then runs the badge check. */
    method HandleLogHabit(habitId: HabitId, completed: bool, today: Day)
      requires Valid()
      modifies this
      ensures Valid()
      ensures habits == UpdatedHabits(old(habits), habitId, completed, today)
      ensures streakLogs == old(streakLogs) + [StreakLog(habitId, today, completed, Some(""), if completed then 1 else 0)]
      ensures earnedBadges == old(earnedBadges) + NewlyEarned(DefaultBadges, old(habits), old(earnedBadges), habitId, completed)
    {
      var newLog := StreakLog(habitId, today, completed, Some(""), 0);
      // The badge check reads the state as it was before this render's updates take effect.
      CheckForNewBadges(habitId, completed);
      DefaultBadgesShape();
      NewlyEarnedSpec(DefaultBadges, old(habits), old(earnedBadges), habitId, completed);
      UpdatedHabitsKeepLongest(habits, habitId, completed, today);
      habits := UpdatedHabits(habits, habitId, completed, today);
      streakLogs := streakLogs + [newLog.(streakLengthAtLog := if completed then 1 else 0)];
    }

    /** `getTotalActiveStreak`. */
    function TotalActiveStreak(): nat
      reads this
    {
      TotalCurrentStreak(habits)
    }

    /** `getHabitsLoggedToday`. */
    function HabitsLoggedToday(today: Day): nat
      reads this
    {
      LoggedTodayCount(habits, today)
    }
  }
}
