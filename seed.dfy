/** The server badge catalog of prisma/seed.ts and the upsert-by-id seeding of the badge table. */
module Seed {
  import opened Types
  import opened Seqs
  import opened BadgeUnlock
  import opened Constants

  const SeedBadges: seq<Badge> := [
    Badge("first-step", "First Step", "Log your first habit", "\U{1F331}",
      UnlockCriteria(MilestoneCriteria, 1, None), Common),
    Badge("week-warrior", "Week Warrior", "Maintain a 7-day streak", "\U{1F31F}",
      UnlockCriteria(StreakCriteria, 7, None), Common),
    Badge("month-master", "Month Master", "Maintain a 30-day streak", "\U{1F525}",
      UnlockCriteria(StreakCriteria, 30, None), Rare),
    Badge("century-club", "Century Club", "Maintain a 100-day streak", "\U{1F48E}",
      UnlockCriteria(StreakCriteria, 100, None), Epic),
    Badge("legend", "Legend", "Maintain a 365-day streak", "\U{1F3C6}",
      UnlockCriteria(StreakCriteria, 365, None), Legendary),
    Badge("consistency-king", "Consistency King", "Log habits for 30 consecutive days", "\U{1F451}",
      UnlockCriteria(ConsistencyCriteria, 30, None), Epic),
    Badge("habit-collector", "Habit Collector", "Create and maintain 5 active habits", "\U{1F3AF}",
      UnlockCriteria(MilestoneCriteria, 5, None), Rare)
  ]

  /** Seven badges with distinct ids. */
  lemma SeedBadgesDistinct()
    ensures |SeedBadges| == 7 && DistinctIds(SeedBadges)
  {
  }

  /**
   * The seed catalog holds the five default badges unchanged, then consistency-king
   * (consistency 30) and habit-collector (milestone 5).
   */
  lemma SeedExtendsDefaults()
    ensures SeedBadges[..5] == DefaultBadges
    ensures SeedBadges[5].id == "consistency-king"
    ensures SeedBadges[5].unlockCriteria == UnlockCriteria(ConsistencyCriteria, 30, None)
    ensures SeedBadges[6].id == "habit-collector"
    ensures SeedBadges[6].unlockCriteria == UnlockCriteria(MilestoneCriteria, 5, None)
  {
  }

  /** The ids the server evaluator can ever unlock from the seed catalog, whatever the streak. */
  lemma OnlyStreakBadgesUnlock(held: seq<BadgeId>, newStreak: int)
    ensures forall b :: b in Unlocked(SeedBadges, held, newStreak) ==>
      b.id in {"week-warrior", "month-master", "century-club", "legend"}
  {
    UnlockedSound(SeedBadges, held, newStreak);
  }

  /** No badge of the seed catalog qualifies below a streak of 7. */
  lemma NothingBelowSeven(held: seq<BadgeId>, newStreak: int)
    requires newStreak < 7
    ensures Unlocked(SeedBadges, held, newStreak) == []
  {
    forall b | b in SeedBadges ensures !Qualifies(b, newStreak) {
      var i :| 0 <= i < |SeedBadges| && SeedBadges[i] == b;
    }
    NothingLeftToUnlock(SeedBadges, held, newStreak);
  }

  /** With nothing held, a streak of 7 earns week-warrior and nothing else. */
  lemma WeekWarriorAtSeven()
    ensures Unlocked(SeedBadges, [], 7) == [SeedBadges[1]]
  {
    var none: seq<BadgeId>, streak := [], 7;
    var tail, rest := SeedBadges[1..], SeedBadges[2..];
    assert Unlocked(rest, none + ["week-warrior"], streak) == [] by {
      assert forall b :: b in rest ==> !Qualifies(b, streak);
      NothingLeftToUnlock(rest, none + ["week-warrior"], streak);
    }
    assert Unlocked(SeedBadges, none, streak) == Unlocked(tail, none, streak);
    assert Unlocked(tail, none, streak) == [SeedBadges[1]] + Unlocked(rest, none + ["week-warrior"], streak) by {
      assert tail[1..] == rest && tail[0] == SeedBadges[1];
    }
  }

  /** Once week-warrior is held, a streak of 8 earns nothing new. */
  lemma WeekWarriorOnlyOnce()
    ensures Unlocked(SeedBadges, ["week-warrior"], 8) == []
  {
    forall b | b in SeedBadges && Qualifies(b, 8) ensures b.id in ["week-warrior"] {
      var i :| 0 <= i < |SeedBadges| && SeedBadges[i] == b;
    }
    NothingLeftToUnlock(SeedBadges, ["week-warrior"], 8);
  }

  /** The position of the first badge with the given id. */
  function FindBadge(table: seq<Badge>, id: BadgeId): (r: Option<nat>)
    ensures r.Some? ==> r.value < |table| && table[r.value].id == id
    ensures r.Some? ==> forall j :: 0 <= j < r.value ==> table[j].id != id
    ensures r.None? ==> forall j :: 0 <= j < |table| ==> table[j].id != id
  {
    if table == [] then None
    else if table[0].id == id then Some(0)
    else match FindBadge(table[1..], id)
      case None => None
      case Some(k) => Some(k + 1)
  }

  /** `badge.upsert({ where: { id }, update: badge, create: badge })`. */
  function UpsertBadge(table: seq<Badge>, b: Badge): seq<Badge>
  {
    match FindBadge(table, b.id)
    case Some(k) => table[k := b]
    case None => table + [b]
  }

  /** The table after upserting each listed badge in turn. */
  function SeedAll(table: seq<Badge>, list: seq<Badge>): seq<Badge>
  {
    if list == [] then table
    else UpsertBadge(SeedAll(table, list[..|list| - 1]), list[|list| - 1])
  }

  /** An upsert stores b, keeps the positions of all other badges, and keeps ids distinct. */
  lemma UpsertBadgeEffect(table: seq<Badge>, b: Badge)
    ensures var t := UpsertBadge(table, b);
      b in t && |table| <= |t| <= |table| + 1 &&
      (forall i :: 0 <= i < |table| && table[i].id != b.id ==> t[i] == table[i]) &&
      (DistinctIds(table) ==> DistinctIds(t))
  {
    var t := UpsertBadge(table, b);
    match FindBadge(table, b.id) {
      case Some(k) => assert t[k] == b;
      case None => assert t[|table|] == b;
    }
    if DistinctIds(table) {
      forall i, j | 0 <= i < j < |t| ensures Ids(t)[i] != Ids(t)[j] {
        assert Ids(t)[i] == t[i].id && Ids(t)[j] == t[j].id;
        if FindBadge(table, b.id).Some? {
          assert Ids(table)[i] == table[i].id && Ids(table)[j] == table[j].id;
        } else if j < |table| {
          assert Ids(table)[i] == table[i].id && Ids(table)[j] == table[j].id;
        }
      }
    }
  }

  /** Upserting a badge that is already stored as it is changes nothing. */
  lemma UpsertPresent(table: seq<Badge>, b: Badge)
    requires DistinctIds(table) && b in table
    ensures UpsertBadge(table, b) == table
  {
    var j :| 0 <= j < |table| && table[j] == b;
    match FindBadge(table, b.id)
    case Some(k) =>
      assert Ids(table)[k] == table[k].id && Ids(table)[j] == table[j].id;
      assert table[k := b] == table;
    case None =>
  }

  /** Badges whose ids are not listed keep their place and fields. */
  lemma {:induction false} SeedAllUntouched(table: seq<Badge>, list: seq<Badge>)
    ensures |SeedAll(table, list)| >= |table|
    ensures forall i :: 0 <= i < |table| && table[i].id !in Ids(list) ==> SeedAll(table, list)[i] == table[i]
  {
    if list != [] {
      var init := list[..|list| - 1];
      SeedAllUntouched(table, init);
      UpsertBadgeEffect(SeedAll(table, init), list[|list| - 1]);
      forall i | 0 <= i < |table| && table[i].id !in Ids(list)
        ensures SeedAll(table, list)[i] == table[i]
      {
        assert Ids(init) == Ids(list)[..|list| - 1];
        assert table[i].id != Ids(list)[|list| - 1];
      }
    }
  }

  /** After seeding a list with distinct ids, each listed badge is stored with exactly its fields. */
  lemma {:induction false} SeedAllPresent(table: seq<Badge>, list: seq<Badge>)
    requires DistinctIds(list)
    ensures DistinctIds(table) ==> DistinctIds(SeedAll(table, list))
    ensures forall b :: b in list ==> b in SeedAll(table, list)
  {
    if list != [] {
      var init := list[..|list| - 1];
      var last := list[|list| - 1];
      assert Ids(init) == Ids(list)[..|list| - 1];
      assert DistinctIds(init);
      SeedAllPresent(table, init);
      var s := SeedAll(table, init);
      UpsertBadgeEffect(s, last);
      forall b | b in init ensures b in SeedAll(table, list) {
        var k :| 0 <= k < |s| && s[k] == b;
        var m :| 0 <= m < |init| && init[m] == b;
        assert Ids(list)[m] == b.id && Ids(list)[|list| - 1] == last.id;
      }
      assert list == init + [last];
    }
  }

  /** When every listed badge is already stored, seeding changes nothing. */
  lemma {:induction false} SeedAllStable(table: seq<Badge>, list: seq<Badge>)
    requires DistinctIds(table)
    requires forall b :: b in list ==> b in table
    ensures SeedAll(table, list) == table
  {
    if list != [] {
      SeedAllStable(table, list[..|list| - 1]);
      UpsertPresent(table, list[|list| - 1]);
    }
  }

  /** Running the seed loop twice leaves the same badge table as running it once. */
  lemma SeedTwiceIsSeedOnce(table: seq<Badge>, list: seq<Badge>)
    requires DistinctIds(table) && DistinctIds(list)
    ensures SeedAll(SeedAll(table, list), list) == SeedAll(table, list)
  {
    SeedAllPresent(table, list);
    SeedAllStable(SeedAll(table, list), list);
  }
}
