# Habit tracker: streak logging and badge unlocking

A Dafny model of the core of a gamified habit tracker with a Farcaster frame front end.
Users own habits. Each habit keeps a cached streak summary (`currentStreak`, `longestStreak`,
`lastLoggedDate`) next to an append-only table of daily logs, one per (habit, date). Logging a
day applies the streak rule, appends the log, overwrites the summary, and then scans the badge
catalog for streak badges the new streak reaches.

The model is split by source file:

- `types.dfy`: the records of `lib/types.ts`, with calendar dates as day numbers and the HTTP error
  statuses (400, 404, 409, 500) as an `ApiError` datatype.
- `seqs.dfy`: sequence helpers: duplicate-freedom, `filter(x => x !== id)`, reversal and subsequences.
- `streak.dfy`: the streak rule, and what replaying it over a habit's history computes: the trailing
  run of adherent logs and the longest run.
- `logs.dfy`: the log table. Rows are kept in insertion order. Lookup is by the unique key
  (habitId, logDate), and listings return the newest rows first, at most N of them.
- `badges.dfy`: the server's badge scan (`checkBadgeUnlocks`) and the client's filter.
- `constants.dfy`, `seed.dfy`: the client's default catalog, the category keys, the sample habits, the
  seven-badge server catalog, and the upsert-by-id seeding loop.
- `store.dfy`: a `Store` class holding the habit, log, user and badge tables. Its methods are the
  handlers of the streak, habit and user routes. `Valid()` holds these invariants:
  - every habit's cached summary is the replay of its log history;
  - each log row carries the streak its habit had reached with it;
  - there is at most one row per (habit, date);
  - the `activeHabits` and `achievedBadges` lists are duplicate-free;
  - cached habit ids name existing habits of that user.
- `frame.dfy`: the frame endpoint. It dispatches on the button index and answers with a tagged
  `FrameResponse` instead of JSON.
- `dashboard.dfy`: the client demo dashboard as a class over its three pieces of state.
- `utils.dfy`, `analytics.dfy`: the pure helpers and the client aggregates.

The streak rule is modelled as the code has it. It never reads `lastLoggedDate`, so an adherent log
after a gap of any number of days still extends the streak by one (`Streak.GapIgnored`).

"Today", the clock reading and the ids that the database would generate are passed in as
parameters. A user row is keyed by its `farcasterId`; the model does not separate it from the
database's own user id. The code answers an update or delete of an unknown habit id with a 500,
because Prisma's `update` throws; the model returns `Internal` there, not a not-found error.

## Model

| member | source | states |
|---|---|---|
| Streak.NextMeta | app/api/streaks/route.ts:46-49 | adherent: streak + 1, otherwise 0; longest is at least both the new streak and the old longest, and equals one of them; lastLoggedDate becomes the logged day |
| Streak.GapIgnored | app/api/streaks/route.ts:48 | the previous lastLoggedDate has no effect on the rule, so a gap in dates does not reset the streak |
| Streak.ReplayMatchesRuns | app/api/streaks/route.ts:48-73 | replaying a history gives currentStreak = trailing run of adherent logs, longestStreak = longest run, lastLoggedDate = last date logged |
| Streak.TrailingRunIsMaximalSuffix | app/api/streaks/route.ts:48 | the current streak is an all-adherent suffix and the entry before it is a miss |
| Streak.LongestRunBoundsEveryRun | app/api/streaks/route.ts:49 | no run of adherent logs is longer than longestStreak |
| Streak.LongestRunAttained | app/api/streaks/route.ts:49 | some run of adherent logs is exactly longestStreak long |
| Streak.ReplayLongestCoversCurrent | app/api/streaks/route.ts:49 | after any history, longestStreak >= currentStreak |
| Streak.ReplayLongestMonotone | app/api/streaks/route.ts:49 | appending logs never lowers longestStreak |
| Streak.TotalCurrentStreakPermutation | app/api/frame/route.ts:178-181 | any permutation of the habits (same multiset) gives the same total current streak, so the unordered query's order does not matter |
| Streak.TotalCurrentStreakReverse | app/api/frame/route.ts:178-181 | reversing the list of habits keeps the total current streak |
| Logs.FindLog | app/api/streaks/route.ts:16-23 | finds the row with key (habitId, logDate), or reports that no row has it |
| Logs.RecentLogsSpec | app/api/streaks/route.ts:134-138 | the listing holds only that habit's rows, strictly newest first, and any row left out is older than all N rows returned |
| Logs.NewestSpec | app/api/habits/route.ts:16-20 | `orderBy logDate desc, take N`: min(N, count) rows, strictly newest first, omitted rows older than every returned one |
| Logs.SortByDateOrdered | app/api/streaks/route.ts:136 | the date sort is newest first, and strictly so when the dates are distinct |
| Logs.LogsOfDistinctDates | app/api/streaks/route.ts:15-29 | with unique keys, one habit's rows have distinct dates |
| BadgeUnlock.UnlockScan | app/api/streaks/route.ts:101-111 | the loop returns the scan's badges and achievedBadges = old list ++ their ids |
| BadgeUnlock.UnlockedSound | app/api/streaks/route.ts:103-110 | every unlocked badge is in the catalog, was not held, and is a streak badge with value <= newStreak |
| BadgeUnlock.UnlockedComplete | app/api/streaks/route.ts:103-110 | after the scan every qualifying catalog badge is held |
| BadgeUnlock.UnlockedNoDup | app/api/streaks/route.ts:104-108 | a duplicate-free achievedBadges list stays duplicate-free |
| BadgeUnlock.UnlockIdempotent | app/api/streaks/route.ts:104 | running the scan again with the same streak unlocks nothing |
| BadgeUnlock.NothingLeftToUnlock | app/api/streaks/route.ts:104-107 | when every qualifying badge is held, the scan returns the empty list |
| BadgeUnlock.UnlockedIsEligible | app/api/streaks/route.ts:103-111 | with distinct catalog ids the scan returns exactly the not-held qualifying badges in catalog order |
| BadgeUnlock.EligibleSound | components/HabitDashboard.tsx:81-87 | a badge is added exactly when it is in the catalog, not earned, and qualifies |
| Constants.HabitCategoriesKeys | lib/constants.ts:3-9 | the category table has exactly the keys health, productivity, learning, social, creative |
| Constants.DefaultBadgesShape | lib/constants.ts:11-19 | five badges with distinct ids; first-step is a milestone badge with value 1 |
| Constants.DefaultStreakThresholds | lib/constants.ts:20-51 | the other four are streak badges with strictly increasing thresholds 7, 30, 100, 365 |
| Constants.SampleHabitsConsistent | lib/constants.ts:54-103 | every sample habit has longestStreak >= currentStreak and the ids are distinct |
| Seed.SeedBadgesDistinct | prisma/seed.ts:7-64 | the seed catalog has seven badges with distinct ids |
| Seed.SeedExtendsDefaults | prisma/seed.ts:8-63 | the seed catalog is the five default badges, then consistency-king (consistency 30) and habit-collector (milestone 5) |
| Seed.OnlyStreakBadgesUnlock | prisma/seed.ts:48-63 | the server scan can only ever unlock the four streak badges |
| Seed.NothingBelowSeven | prisma/seed.ts:16-23 | no seed badge unlocks below a streak of 7 |
| Seed.WeekWarriorAtSeven | prisma/seed.ts:16-23 | for the seeded catalog, from no badges, a streak of 7 unlocks week-warrior and nothing else |
| Seed.WeekWarriorOnlyOnce | prisma/seed.ts:16-23 | once week-warrior is held, a streak of 8 unlocks nothing |
| Seed.UpsertBadgeEffect | prisma/seed.ts:67-71 | an upsert stores the badge, keeps every other badge in place and keeps ids distinct |
| Seed.UpsertPresent | prisma/seed.ts:67-71 | upserting a badge already stored as it is changes nothing |
| Seed.SeedAllUntouched | prisma/seed.ts:66-72 | badges whose ids are not listed keep their position and fields |
| Seed.SeedAllPresent | prisma/seed.ts:66-72 | after seeding, every listed badge is stored with exactly its fields |
| Seed.SeedAllStable | prisma/seed.ts:66-72 | when every listed badge is already stored, seeding changes nothing |
| Seed.SeedTwiceIsSeedOnce | prisma/seed.ts:66-72 | seeding twice leaves the same table as seeding once |
| Store.Store.SeedBadgeTable | prisma/seed.ts:66-72 | the loop leaves the badge table equal to the upserts applied in order, and no other table changes |
| Store.StoredNotes | app/api/streaks/route.ts:57 | an empty note is stored as no note; any other note is kept |
| Store.NewHabit | app/api/habits/route.ts:42-57 | a new habit is active, with streak 0, longest 0, no last date, start date today; an empty icon becomes the default |
| Store.ApplyPatch | app/api/habits/route.ts:92-103 | each supplied field is replaced, each absent one kept; id, owner, start date and streak metadata never change |
| Store.EmptyPatchIsIdentity | app/api/habits/route.ts:95-100 | a patch with no fields leaves the habit as it is |
| Store.ActiveOf | app/api/habits/route.ts:13-14 | the listing holds exactly the owner's active habits |
| Store.ActiveOfOrdered | app/api/habits/route.ts:13-15 | it lists no habit twice and keeps creation order |
| Store.NewestFirstSpec | app/api/habits/route.ts:13-15 | the listing holds exactly the owner's active habits, once each, newest created first |
| Store.Deactivated | app/api/habits/route.ts:122-125 | a soft delete clears isActive and keeps the record and all other habits |
| Store.DropActive | app/api/habits/route.ts:128-142 | the id leaves the owner's activeHabits cache; other users and the badges are unchanged |
| Store.SoftDeleteIdempotent | app/api/habits/route.ts:121-141 | deleting the same habit twice leaves the same habits and users as deleting it once |
| Store.DeletedNotListed | app/api/habits/route.ts:121-125 | a soft-deleted habit is no longer listed, and every other listed habit still is |
| Store.Upserted | app/api/users/route.ts:50-64 | a new user starts with empty lists; an existing one gets only the supplied display fields and keeps both lists |
| Store.UpsertedIdempotent | app/api/users/route.ts:50-64 | repeating the same upsert changes nothing |
| Store.UniqueKeysAppend | app/api/streaks/route.ts:15-29 | a row whose key is not yet present keeps the (habit, date) keys unique |
| Store.LedgerAppend | app/api/streaks/route.ts:52-73 | appending the log and applying the rule keeps the summary equal to the replay of the history |
| Store.Store.MetadataMatchesHistory | app/api/streaks/route.ts:48-73 | each habit's summary is determined by its logs: trailing run, longest run (>= current), last date |
| Store.Store.RecordLog | app/api/streaks/route.ts:51-73 | appends exactly one log stamped with the new streak and overwrites only that habit's metadata |
| Store.Store.CheckBadgeUnlocks | app/api/streaks/route.ts:89-123 | unknown habit: nothing unlocked and no write; otherwise the owner exists, the scan's badges are returned and achievedBadges = old ++ new is written only when something was unlocked |
| Store.Store.LogStreak | app/api/streaks/route.ts:4-87 | missing fields: 400; duplicate (habit, date): 409; unknown habit: 404, all with no change; otherwise one log, the rule applied, badges evaluated |
| Store.Store.StreakLogs | app/api/streaks/route.ts:125-145 | no habitId: 400; otherwise that habit's latest 90 logs, newest first |
| Store.Store.ListHabits | app/api/habits/route.ts:4-29 | no userId: 400; otherwise the active habits newest first, each with its latest 30 logs |
| Store.Store.CreateHabit | app/api/habits/route.ts:31-81 | missing userId, name or category: 400 with no change; owner with no user row: 500 with no change; otherwise the new habit is stored and its id appended to the owner's activeHabits |
| Store.Store.UpdateHabit | app/api/habits/route.ts:83-110 | no id: 400; unknown id: 500; otherwise only the patched habit changes, and logs and metadata are untouched |
| Store.Store.DeleteHabit | app/api/habits/route.ts:112-149 | no id: 400; unknown id: 500; otherwise a soft delete plus cache removal, with every log kept |
| Store.Store.GetUser | app/api/users/route.ts:4-39 | no farcasterId: 400; unknown: 404; otherwise the user and only their active habits, newest first |
| Store.Store.UpsertUser | app/api/users/route.ts:41-78 | no farcasterId: 400 with no write; otherwise the upserted row replaces that user only |
| Store.Store.FindOrCreateUser | app/api/frame/route.ts:15-28 | an existing user is reused unchanged; an absent one is created with empty lists |
| Frame.ActionFor | app/api/frame/route.ts:31-42 | button 1 gives log, 2 view, 3 add and 4 share, each exactly for that index; any other index gives the default view |
| Frame.FidKey | app/api/frame/route.ts:17 | `fid.toString()` is a non-empty string of decimal digits with no leading zero |
| Frame.FidKeyRoundTrip | app/api/frame/route.ts:17 | reading the key back as a decimal number gives the fid |
| Frame.FidKeyInjective | app/api/frame/route.ts:17-23 | distinct fids never share a user row |
| Frame.LowerAscii | app/api/frame/route.ts:77 | lower-casing keeps the length and maps each character by itself |
| Frame.LowerAsciiIdempotent | app/api/frame/route.ts:77 | lower-casing twice is the same as once |
| Frame.FindByName | app/api/frame/route.ts:77 | finds the first habit whose lower-cased name equals the lower-cased input, or reports that none matches |
| Frame.OverviewAgreesWithDashboard | app/api/frame/route.ts:178-181 | the view and the default frames report the same total streak and habit count |
| Frame.MaxCurrent | app/api/frame/route.ts:267-270 | the largest current streak: no habit exceeds it and some habit has it |
| Frame.FirstWithStreak | app/api/frame/route.ts:272-275 | the first habit with the given current streak, or none |
| Frame.ShareViewSpec | app/api/frame/route.ts:262-293 | share shows the first habit with the maximal current streak; with no active habit it shows the default view |
| Frame.LogFromFrame | app/api/frame/route.ts:51-170 | no habits: onboarding; no input or no match: selection list; already logged today: refusal; these write nothing. Otherwise the matched habit's metadata takes the streak update for today and an adherent log with the new streak is appended; users and badges are untouched (no badge check) |
| Frame.AddFromFrame | app/api/frame/route.ts:201-260 | with a name, creates a productivity habit and appends it to activeHabits; without one, asks for a name and writes nothing |
| Frame.HandleFrame | app/api/frame/route.ts:4-49 | no frame data: 400 and no change; otherwise the fid's user is found or created, and for each button the response and the new habits, users and logs are those of its handler: the log outcome (onboarding, selection, refusal or the logged streak and new log row), the added habit and its activeHabits entry, or the view, share and default frames with nothing written |
| Utils.IsToday | lib/utils.ts:16-24 | true exactly when day, month and year all match |
| Utils.GetDaysInStreak | lib/utils.ts:26-51 | the loop returns the walk over the adherent logs newest first, at most their number (0 when there are none) |
| Utils.StreakRunWindow | lib/utils.ts:37-48 | the i-th counted log lies within i + 1 days before today |
| Utils.StreakRunStopsAtGap | lib/utils.ts:37-47 | the walk stops only at a log 2 or more days before the previous counted one, or after it |
| Utils.DailyLogsAllCount | lib/utils.ts:37-48 | one adherent log a day back from today or yesterday, with no day missing, all count |
| Utils.StreakTierBands | lib/utils.ts:53-61 | each emoji tier is one band: >= 100, 50-99, 30-49, 14-29, 7-13, 3-6, below 3 |
| Utils.StreakTierMonotone | lib/utils.ts:53-61 | a longer streak never shows a lower tier |
| Utils.BadgeColorPerRarity | lib/utils.ts:63-70 | legendary, epic and rare have distinct colours; every other string is grey |
| Dashboard.UpdatedHabitsEffect | components/HabitDashboard.tsx:45-64 | only habits with the id change, and only their metadata: completed +1, skip 0, longest = max, last date today |
| Dashboard.UpdatedHabitsKeepLongest | components/HabitDashboard.tsx:48-58 | longest >= current is kept, and no longest shrinks |
| Dashboard.TotalAfterLog | components/HabitDashboard.tsx:90-92 | a completion raises the total active streak by one per habit logged; a skip never raises it |
| Dashboard.Occurrences | components/HabitDashboard.tsx:47 | how many habits carry the id, 0 exactly when none does |
| Dashboard.LoggedTodayCount | components/HabitDashboard.tsx:94-98 | the number of habits last logged today: 0 iff none, all iff every one |
| Dashboard.LoggedTodayAfterLog | components/HabitDashboard.tsx:94-98 | after a log the count does not drop and covers the logged habit |
| Dashboard.HabitVariantCases | components/HabitDashboard.tsx:104-109 | completed iff logged today with a positive streak, missed iff logged today with 0, active otherwise |
| Dashboard.VariantAfterLog | components/HabitDashboard.tsx:104-109 | a habit just completed shows as completed, one just skipped as missed |
| Dashboard.FindHabit | components/HabitDashboard.tsx:76 | the habit with the id, or none when no habit has it |
| Dashboard.EligibleIdsSpec | components/HabitDashboard.tsx:81-87 | the added ids are exactly those of not-earned qualifying badges, and the earned list stays duplicate-free |
| Dashboard.NewlyEarnedSpec | components/HabitDashboard.tsx:73-88 | nothing for a skip or unknown habit; otherwise the not-earned streak badges with value <= current + 1 |
| Dashboard.EligibleScan | components/HabitDashboard.tsx:81-87 | the loop returns the eligible ids in catalog order |
| Dashboard.Dashboard.constructor | components/HabitDashboard.tsx:20-22 | starts with the sample habits, no logs and first-step earned |
| Dashboard.Dashboard.CheckForNewBadges | components/HabitDashboard.tsx:73-88 | appends the newly earned ids to the earned list |
| Dashboard.Dashboard.HandleLogHabit | components/HabitDashboard.tsx:31-71 | applies the rule to the matching habits, appends one log stamped 1 or 0, and only grows the earned list |
| Analytics.PercentRounds | components/Analytics.tsx:55 | the percentage is 100 * part / whole rounded to the nearest integer, halves up on the exact ratio |
| Analytics.PercentBounds | components/Analytics.tsx:74 | a part of a whole is 0..100 percent: all is 100, none is 0 |
| Analytics.BestStreak | components/Analytics.tsx:78-84 | 0 for no habits, otherwise the maximum longestStreak |
| Analytics.OnStreak | components/Analytics.tsx:89-92 | counts habits with currentStreak > 0, 0 exactly when none is on a streak |
| Analytics.AverageConsistencySpec | components/Analytics.tsx:86-95 | 0..100; 0 when no habit is on a streak, 100 when all are |
| Analytics.WeeklyProgress | components/Analytics.tsx:41-57 | total = 7 per habit; the percentage is 0 for no habits and at most 100 when completed <= total |
| Analytics.InWeekDays | components/Analytics.tsx:43-47 | in day numbers the week window is today back to 7 days before (at midnight) or 6 (otherwise) |
| Analytics.WeeklyCompletedAdherentOnly | components/Analytics.tsx:50 | only adherent logs count towards the weekly completed total |
| Analytics.CompletionRateBounded | components/Analytics.tsx:196-199 | the per-habit completion rate lies in 0..100 |
| Analytics.CompletionRateAllAdherent | components/Analytics.tsx:196-199 | it is 100 when the habit has logs and all are adherent |
| Analytics.CompletionRateNoneAdherent | components/Analytics.tsx:196-199 | it is 0 when no log of the habit is adherent |
| Seqs.Without | app/api/habits/route.ts:134 | the filter removes every occurrence of the id and keeps every other element |
| Seqs.WithoutAppend | app/api/habits/route.ts:134 | removal distributes over concatenation, so the rest keep their order |
| Seqs.WithoutIdempotent | app/api/habits/route.ts:134 | removing the id twice is the same as once |
| Seqs.WithoutNoDup | app/api/habits/route.ts:134 | removal keeps a duplicate-free list duplicate-free |

## Left out

- The share-card image route (SVG templating) and the network client wrappers: presentation and transport.
- JSON encoding of `streakMetadata`, `activeHabits` and `achievedBadges`: these are structured values here.
- Transactions, the race between the duplicate check and the insert, and other Prisma behaviour:
  the handlers run one after another on in-memory tables.
- The log table is a sequence of rows in insertion order. The (habit, date) key is kept unique as an invariant, not by the storage engine.
- Wall clock, time zones and ISO date strings: dates are day numbers, "today" and the clock reading are parameters.
- `updatedAt` and `createdAt` timestamps: the creation order is kept as a list of habit ids, and `updatedAt` is not modelled.
- Ids generated by the database and `log-${Date.now()}` log ids: new habit ids are fresh parameters, and logs are identified by (habit, date).
- Frame.LowerAscii: only ASCII letters are lower-cased, because Unicode case mapping is not modelled.
- Frame.HandleFrame: the `fid` is a natural number; other JSON values in `untrustedData` are not modelled.
- Frame.ShareViewSpec: the share and default views query without an order, and the model lists their habits in creation order.
- Store.Store.CreateHabit: the habit's required user relation is modelled as a foreign key: creating a habit for a user id with no user row fails with 500 and writes nothing, and the store invariant requires every habit's owner to exist, so Store.Store.CheckBadgeUnlocks always finds the owner of a known habit. Database error messages are not modelled.
- Store.Store.CreateHabit, Store.Store.UpdateHabit: category values outside the five categories are not modelled.
- Analytics.PercentRounds: the model rounds the exact ratio 100 * part / whole, while the component rounds the double (part / whole) * 100; the two can differ at exact halves, e.g. 23 of 40 gives 57 in the component (the double product falls just below 57.5) and 58 in the model, and likewise 46 of 80, 69 of 120 and 161 of 280. IEEE floating point is not modelled.
- Utils.GetDaysInStreak: the unused `startDate` argument is dropped. Log dates are UTC midnights in milliseconds, and the clock reading is a parameter.
- Analytics.BestStreak: a missing longestStreak counting as 0 is not modelled, because longestStreak is always a natural number here.
- The monthly progress of components/Analytics.tsx: it depends on calendar month arithmetic and `Math.ceil` of milliseconds.
- Rendering components, the app shell, configuration, random motivational messages, `console.error` logging and the generic 500 catch-all branches.
- `cn` and `formatDate` in lib/utils.ts: styling and locale formatting.
- The emoji glyphs of `getStreakEmoji`: the tiers are an enumeration.
