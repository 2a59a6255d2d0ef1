/**
 * The server's tables and the route handlers that read and write them:
 * app/api/streaks/route.ts (log a day, list logs), app/api/habits/route.ts (list, create,
 * patch, soft delete), app/api/users/route.ts (lookup, upsert) and the seeding loop of
 * prisma/seed.ts. The handlers run one after another on in-memory maps.
 */
module Store {
  import opened Types
  import opened Seqs
  import opened Streak
  import opened Logs
  import opened BadgeUnlock
  import opened Seed

  /** The icon a habit gets when none is given. */
  const DefaultIcon: string := "\U{1F3AF}"
  /** Logs returned with each habit by the habit listing. */
  const HabitLogWindow: nat := 30
  /** Logs returned by the streak-log listing. */
  const StreakLogWindow: nat := 90

  /** The body of a successful streak log: the new log, the new streak, the badges it unlocked. */
  datatype LogResponse = LogResponse(streakLog: StreakLog, newStreak: nat, badgesUnlocked: seq<Badge>)

  /** The optional fields of a habit update; None leaves the field as it is. */
  datatype HabitPatch = HabitPatch(
    name: Option<string>,
    description: Option<string>,
    goal: Option<string>,
    category: Option<Category>,
    icon: Option<string>,
    isActive: Option<bool>)

  datatype HabitWithLogs = HabitWithLogs(habit: Habit, streakLogs: seq<StreakLog>)

  datatype UserWithHabits = UserWithHabits(user: User, habits: seq<Habit>)

  /** `notes || null`: an empty note is stored as no note. */
  function StoredNotes(notes: Option<string>): (r: Option<string>)
    ensures r.Some? <==> notes.Some? && notes.value != ""
    ensures r.Some? ==> r == notes
  {
    if notes == Some("") then None else notes
  }

  // ---------------------------------------------------------------------------
  // Habits

  /** A new habit: active, zeroed metadata, an empty icon replaced by the default. */
  function NewHabit(id: HabitId, userId: UserId, name: string, description: string, goal: string,
                    category: Category, icon: string, today: Day): (h: Habit)
    ensures h.id == id && h.userId == userId && h.name == name && h.category == category
    ensures h.description == description && h.goal == goal && h.startDate == today
    ensures h.isActive && h.streakMetadata == StreakMetadata(0, 0, None)
    ensures h.icon == (if icon == "" then DefaultIcon else icon)
  {
    Habit(id, userId, name, description, goal, today, true, Fresh(), category,
      if icon == "" then DefaultIcon else icon)
  }

  function Pick<T>(given: Option<T>, current: T): T {
    if given.Some? then given.value else current
  }

  /** A partial update: only the supplied fields change; identity, owner and streak metadata never do. */
  function ApplyPatch(h: Habit, p: HabitPatch): (r: Habit)
    ensures r.id == h.id && r.userId == h.userId && r.startDate == h.startDate
    ensures r.streakMetadata == h.streakMetadata
    ensures p.name.None? ==> r.name == h.name
    ensures p.name.Some? ==> r.name == p.name.value
    ensures p.description.None? ==> r.description == h.description
    ensures p.description.Some? ==> r.description == p.description.value
    ensures p.goal.None? ==> r.goal == h.goal
    ensures p.goal.Some? ==> r.goal == p.goal.value
    ensures p.category.None? ==> r.category == h.category
    ensures p.category.Some? ==> r.category == p.category.value
    ensures p.icon.None? ==> r.icon == h.icon
    ensures p.icon.Some? ==> r.icon == p.icon.value
    ensures p.isActive.None? ==> r.isActive == h.isActive
    ensures p.isActive.Some? ==> r.isActive == p.isActive.value
  {
    h.(name := Pick(p.name, h.name),
       description := Pick(p.description, h.description),
       goal := Pick(p.goal, h.goal),
       category := Pick(p.category, h.category),
       icon := Pick(p.icon, h.icon),
       isActive := Pick(p.isActive, h.isActive))
  }

  /** An empty patch changes nothing. */
  lemma EmptyPatchIsIdentity(h: Habit)
    ensures ApplyPatch(h, HabitPatch(None, None, None, None, None, None)) == h
  {
  }

  predicate OwnedActive(h: Habit, owner: UserId) {
    h.userId == owner && h.isActive
  }

  predicate AllStored(ids: seq<HabitId>, habits: map<HabitId, Habit>) {
    forall i :: 0 <= i < |ids| ==> ids[i] in habits
  }

  /** The active habits of `owner`, in creation order (`where: { userId, isActive: true }`). */
  function ActiveOf(created: seq<HabitId>, habits: map<HabitId, Habit>, owner: UserId): (r: seq<HabitId>)
    requires AllStored(created, habits)
    ensures AllStored(r, habits)
    ensures forall id :: id in r ==> id in created && OwnedActive(habits[id], owner)
    ensures forall id :: id in created && OwnedActive(habits[id], owner) ==> id in r
  {
    if created == [] then []
    else
      var head := if OwnedActive(habits[created[0]], owner) then [created[0]] else [];
      head + ActiveOf(created[1..], habits, owner)
  }

  /** The same habits newest-created first (`orderBy: { createdAt: 'desc' }`). */
  function NewestFirst(created: seq<HabitId>, habits: map<HabitId, Habit>, owner: UserId): (r: seq<HabitId>)
    requires AllStored(created, habits)
    ensures AllStored(r, habits)
  {
    Reverse(ActiveOf(created, habits, owner))
  }

  /** ActiveOf lists no habit twice and keeps creation order. */
  lemma {:induction false} ActiveOfOrdered(created: seq<HabitId>, habits: map<HabitId, Habit>, owner: UserId)
    requires AllStored(created, habits) && NoDup(created)
    ensures NoDup(ActiveOf(created, habits, owner))
    ensures Subseq(ActiveOf(created, habits, owner), created)
  {
    if created != [] {
      var c, rest := created[0], created[1..];
      assert AllStored(rest, habits);
      assert NoDup(rest);
      assert c !in rest by {
        forall j | 0 <= j < |rest| ensures rest[j] != c {
          assert rest[j] == created[j + 1];
        }
      }
      ActiveOfOrdered(rest, habits, owner);
      var tail := ActiveOf(rest, habits, owner);
      var r := ActiveOf(created, habits, owner);
      if OwnedActive(habits[c], owner) {
        assert r == [c] + tail;
        assert r[1..] == tail;
        forall i, j | 0 <= i < j < |r| ensures r[i] != r[j] {
          assert r[j] == tail[j - 1] && r[j] in rest;
          if i > 0 {
            assert r[i] == tail[i - 1];
          }
        }
      } else {
        assert r == tail;
        if r != [] {
          assert r[0] in rest;
        }
      }
    }
  }

  /**
   * The listing holds exactly the owner's active habits, each once, newest first: read
   * backwards it is a subsequence of the creation order.
   */
  lemma NewestFirstSpec(created: seq<HabitId>, habits: map<HabitId, Habit>, owner: UserId)
    requires AllStored(created, habits) && NoDup(created)
    requires forall id :: id in habits ==> id in created
    ensures var r := NewestFirst(created, habits, owner);
      (forall id :: id in r <==> id in habits && OwnedActive(habits[id], owner)) &&
      NoDup(r) &&
      Subseq(Reverse(r), created)
  {
    var a := ActiveOf(created, habits, owner);
    ActiveOfOrdered(created, habits, owner);
    ReverseSpec(a);
    ReverseReverse(a);
  }

  /** The stored record of each listed id. */
  function Records(ids: seq<HabitId>, habits: map<HabitId, Habit>): (r: seq<Habit>)
    requires AllStored(ids, habits)
    ensures |r| == |ids| && forall i :: 0 <= i < |ids| ==> r[i] == habits[ids[i]]
  {
    seq(|ids|, i requires 0 <= i < |ids| => habits[ids[i]])
  }

  /** Marks a habit inactive; the record stays in the table. */
  function Deactivated(habits: map<HabitId, Habit>, id: HabitId): (r: map<HabitId, Habit>)
    requires id in habits
    ensures r.Keys == habits.Keys && !r[id].isActive
    ensures r[id] == habits[id].(isActive := false)
    ensures forall other :: other in habits && other != id ==> r[other] == habits[other]
  {
    habits[id := habits[id].(isActive := false)]
  }

  /** Removes every occurrence of id from the owner's activeHabits cache, if the owner exists. */
  function DropActive(users: map<UserId, User>, owner: UserId, id: HabitId): (r: map<UserId, User>)
    ensures r.Keys == users.Keys
    ensures forall u :: u in users && u != owner ==> r[u] == users[u]
    ensures owner in users ==> r[owner].achievedBadges == users[owner].achievedBadges
    ensures owner in users ==> id !in r[owner].activeHabits
  {
    if owner in users then
      users[owner := users[owner].(activeHabits := Without(users[owner].activeHabits, id))]
    else users
  }

  /** Soft-deleting the same habit twice leaves the state of deleting it once. */
  lemma SoftDeleteIdempotent(habits: map<HabitId, Habit>, users: map<UserId, User>, id: HabitId)
    requires id in habits
    ensures var owner := habits[id].userId;
      var once := Deactivated(habits, id);
      var usersOnce := DropActive(users, owner, id);
      Deactivated(once, id) == once &&
      once[id].userId == owner &&
      DropActive(usersOnce, once[id].userId, id) == usersOnce
  {
    var owner := habits[id].userId;
    if owner in users {
      WithoutIdempotent(users[owner].activeHabits, id);
      var usersOnce := DropActive(users, owner, id);
      assert usersOnce[owner].(activeHabits := Without(usersOnce[owner].activeHabits, id)) == usersOnce[owner];
    }
  }

  /**
   * After a soft delete the habit is no longer listed for anyone, and every other habit is
   * listed for its owner exactly when it was before.
   */
  lemma DeletedNotListed(created: seq<HabitId>, habits: map<HabitId, Habit>, id: HabitId, owner: UserId)
    requires AllStored(created, habits) && id in habits
    ensures var after := NewestFirst(created, Deactivated(habits, id), owner);
      id !in after &&
      forall other :: other != id && other in NewestFirst(created, habits, owner) ==> other in after
  {
    var habits' := Deactivated(habits, id);
    var before, now := ActiveOf(created, habits, owner), ActiveOf(created, habits', owner);
    ReverseSpec(before);
    ReverseSpec(now);
  }

  // ---------------------------------------------------------------------------
  // The invariant of the tables

  ghost predicate HabitTable(habits: map<HabitId, Habit>, created: seq<HabitId>) {
    && (forall id :: id in habits ==> habits[id].id == id)
    && NoDup(created) && AllStored(created, habits)
    && (forall id :: id in habits ==> id in created)
  }

  /**
   * The log table and the cached metadata agree: keys are unique, every row belongs to a
   * habit, each row carries the streak its habit's history had reached with it, and each
   * habit's metadata is the replay of its whole history.
   */
  ghost predicate Ledger(habits: map<HabitId, Habit>, logs: seq<StreakLog>) {
    && UniqueKeys(logs)
    && (forall i :: 0 <= i < |logs| ==> logs[i].habitId in habits)
    && (forall i {:trigger Stamped(logs, i)} :: 0 <= i < |logs| ==> Stamped(logs, i))
    && (forall id {:trigger Replayed(habits, logs, id)} :: id in habits ==> Replayed(habits, logs, id))
  }

  /** Row i carries the streak its habit's history had reached with that row. */
  ghost predicate Stamped(logs: seq<StreakLog>, i: int)
    requires 0 <= i < |logs|
  {
    logs[i].streakLengthAtLog == Replay(History(logs[..i + 1], logs[i].habitId)).currentStreak
  }

  /** The habit's metadata is the replay of its whole history. */
  ghost predicate Replayed(habits: map<HabitId, Habit>, logs: seq<StreakLog>, id: HabitId)
    requires id in habits
  {
    habits[id].streakMetadata == Replay(History(logs, id))
  }

  ghost predicate UserConsistent(u: UserId, user: User, habits: map<HabitId, Habit>) {
    && user.farcasterId == u
    && NoDup(user.activeHabits)
    && NoDup(user.achievedBadges)
    && (forall id :: id in user.activeHabits ==> id in habits && habits[id].userId == u)
  }

  /**
   * Every user row is consistent, and every habit's owner has a row: the habit's user relation
   * is a required foreign key.
   */
  ghost predicate UsersConsistent(users: map<UserId, User>, habits: map<HabitId, Habit>) {
    && (forall u :: u in users ==> UserConsistent(u, users[u], habits))
    && (forall id :: id in habits ==> habits[id].userId in users)
  }

  /** A row whose key is not yet present keeps the keys unique. */
  lemma UniqueKeysAppend(logs: seq<StreakLog>, log: StreakLog)
    requires UniqueKeys(logs) && FindLog(logs, log.habitId, log.logDate).None?
    ensures UniqueKeys(logs + [log])
  {
    var logs' := logs + [log];
    forall i, j | 0 <= i < j < |logs'| && logs'[i].habitId == logs'[j].habitId
      ensures logs'[i].logDate != logs'[j].logDate
    {
      if j == |logs| {
        assert logs'[i] == logs[i];
      } else {
        assert logs'[i] == logs[i] && logs'[j] == logs[j];
      }
    }
  }

  /** A row stamped with the streak its own history reaches keeps every row stamped. */
  lemma StampedAppend(logs: seq<StreakLog>, log: StreakLog)
    requires forall i :: 0 <= i < |logs| ==> Stamped(logs, i)
    requires log.streakLengthAtLog == Replay(History(logs + [log], log.habitId)).currentStreak
    ensures forall i :: 0 <= i < |logs| + 1 ==> Stamped(logs + [log], i)
  {
    var logs' := logs + [log];
    forall i | 0 <= i < |logs'| ensures Stamped(logs', i) {
      if i < |logs| {
        assert logs'[..i + 1] == logs[..i + 1];
        assert Stamped(logs, i);
      } else {
        assert logs'[..i + 1] == logs';
      }
    }
  }

  /** The history of the logged habit grows by the new entry, so its replay is the rule applied once more. */
  lemma ReplayedAppend(habits: map<HabitId, Habit>, logs: seq<StreakLog>, log: StreakLog)
    requires log.habitId in habits && Replayed(habits, logs, log.habitId)
    ensures Replay(History(logs + [log], log.habitId)) ==
      NextMeta(habits[log.habitId].streakMetadata, log.isAdherent, log.logDate)
  {
    var h := History(logs, log.habitId);
    var e := Entry(log.logDate, log.isAdherent);
    HistoryAppend(logs, log, log.habitId);
    assert (h + [e])[..|h|] == h;
  }

  /** The other habits' histories do not change. */
  lemma OthersReplayed(habits: map<HabitId, Habit>, habits': map<HabitId, Habit>, logs: seq<StreakLog>, log: StreakLog)
    requires forall id {:trigger Replayed(habits, logs, id)} :: id in habits ==> Replayed(habits, logs, id)
    requires habits'.Keys == habits.Keys && log.habitId in habits
    requires forall id :: id in habits && id != log.habitId ==> habits'[id] == habits[id]
    requires Replay(History(logs + [log], log.habitId)) == habits'[log.habitId].streakMetadata
    ensures forall id {:trigger Replayed(habits', logs + [log], id)} :: id in habits' ==> Replayed(habits', logs + [log], id)
  {
    forall other | other in habits' ensures Replayed(habits', logs + [log], other) {
      if other != log.habitId {
        assert Replayed(habits, logs, other);
        HistoryAppend(logs, log, other);
        assert History(logs, other) + [] == History(logs, other);
        assert History(logs + [log], other) == History(logs, other);
      }
    }
  }

  /** Appending the log of a new (habit, date) pair and applying the rule keeps the ledger. */
  lemma LedgerAppend(habits: map<HabitId, Habit>, logs: seq<StreakLog>, log: StreakLog)
    requires Ledger(habits, logs) && log.habitId in habits
    requires FindLog(logs, log.habitId, log.logDate).None?
    requires log.streakLengthAtLog ==
      NextMeta(habits[log.habitId].streakMetadata, log.isAdherent, log.logDate).currentStreak
    ensures var id := log.habitId;
      Ledger(habits[id := habits[id].(streakMetadata := NextMeta(habits[id].streakMetadata, log.isAdherent, log.logDate))],
             logs + [log])
  {
    var id := log.habitId;
    var m := NextMeta(habits[id].streakMetadata, log.isAdherent, log.logDate);
    var habits' := habits[id := habits[id].(streakMetadata := m)];
    assert Replayed(habits, logs, id);
    ReplayedAppend(habits, logs, log);
    OthersReplayed(habits, habits', logs, log);
    UniqueKeysAppend(logs, log);
    StampedAppend(logs, log);
  }

  /** A habit with no logs and zeroed metadata can join the ledger. */
  lemma LedgerNewHabit(habits: map<HabitId, Habit>, logs: seq<StreakLog>, h: Habit)
    requires Ledger(habits, logs) && h.id !in habits && h.streakMetadata == Fresh()
    ensures Ledger(habits[h.id := h], logs)
  {
    LogsOfAbsent(logs, h.id);
    var habits' := habits[h.id := h];
    forall id | id in habits' ensures Replayed(habits', logs, id) {
      if id != h.id {
        assert Replayed(habits, logs, id);
      }
    }
  }

  /** Changing habit fields other than the metadata keeps the ledger. */
  lemma LedgerSameMetadata(habits: map<HabitId, Habit>, habits': map<HabitId, Habit>, logs: seq<StreakLog>)
    requires Ledger(habits, logs) && habits'.Keys == habits.Keys
    requires forall id :: id in habits ==> habits'[id].streakMetadata == habits[id].streakMetadata
    ensures Ledger(habits', logs)
  {
    forall id | id in habits' ensures Replayed(habits', logs, id) {
      assert Replayed(habits, logs, id);
    }
  }

  /** Users stay consistent when every habit keeps its owner and every new habit's owner exists. */
  lemma UsersSameOwners(users: map<UserId, User>, habits: map<HabitId, Habit>, habits': map<HabitId, Habit>)
    requires UsersConsistent(users, habits)
    requires forall id :: id in habits ==> id in habits' && habits'[id].userId == habits[id].userId
    requires forall id :: id in habits' && id !in habits ==> habits'[id].userId in users
    ensures UsersConsistent(users, habits')
  {
    forall u | u in users ensures UserConsistent(u, users[u], habits') {
      assert UserConsistent(u, users[u], habits);
    }
  }

  /** A new habit id appended to the creation order keeps the habit table consistent. */
  lemma HabitTableAdd(habits: map<HabitId, Habit>, created: seq<HabitId>, h: Habit)
    requires HabitTable(habits, created) && h.id !in habits
    ensures HabitTable(habits[h.id := h], created + [h.id])
  {
    var c := created + [h.id];
    assert h.id !in created;
    forall i, j | 0 <= i < j < |c| ensures c[i] != c[j] {
      assert c[i] == created[i];
    }
  }

  /** Replacing one user by a consistent row keeps the users consistent. */
  lemma UsersUpdate(users: map<UserId, User>, habits: map<HabitId, Habit>, u: UserId, user: User)
    requires UsersConsistent(users, habits) && UserConsistent(u, user, habits)
    ensures UsersConsistent(users[u := user], habits)
  {
  }

  // ---------------------------------------------------------------------------
  // Users

  function Override(current: Option<string>, given: Option<string>): Option<string> {
    if given.Some? then given else current
  }

  /**
   * The row an upsert by farcasterId leaves: a new user starts with empty lists; an existing
   * one gets the supplied display fields (an absent field is left as it is) and keeps its lists.
   */
  function Upserted(existing: Option<User>, farcasterId: UserId,
                    displayName: Option<string>, profilePicture: Option<string>): (u: User)
    requires existing.Some? ==> existing.value.farcasterId == farcasterId
    ensures u.farcasterId == farcasterId
    ensures existing.None? ==> u == User(farcasterId, displayName, profilePicture, [], [])
    ensures existing.Some? ==> u.activeHabits == existing.value.activeHabits
    ensures existing.Some? ==> u.achievedBadges == existing.value.achievedBadges
    ensures existing.Some? && displayName.Some? ==> u.displayName == displayName
    ensures existing.Some? && displayName.None? ==> u.displayName == existing.value.displayName
    ensures existing.Some? && profilePicture.Some? ==> u.profilePicture == profilePicture
    ensures existing.Some? && profilePicture.None? ==> u.profilePicture == existing.value.profilePicture
  {
    match existing
    case None => User(farcasterId, displayName, profilePicture, [], [])
    case Some(prev) => prev.(displayName := Override(prev.displayName, displayName),
                             profilePicture := Override(prev.profilePicture, profilePicture))
  }

  /** Repeating the same upsert changes nothing more. */
  lemma UpsertedIdempotent(existing: Option<User>, farcasterId: UserId,
                           displayName: Option<string>, profilePicture: Option<string>)
    requires existing.Some? ==> existing.value.farcasterId == farcasterId
    ensures var once := Upserted(existing, farcasterId, displayName, profilePicture);
      Upserted(Some(once), farcasterId, displayName, profilePicture) == once
  {
  }

  // ---------------------------------------------------------------------------

  class Store {
    var habits: map<HabitId, Habit>
    /** Habit ids in the order the habits were created (the createdAt column). */
    var created: seq<HabitId>
    /** The streak-log rows in the order they were written. */
    var logs: seq<StreakLog>
    var users: map<UserId, User>
    var badges: seq<Badge>

    ghost predicate Valid()
      reads this
    {
      && HabitTable(habits, created)
      && Ledger(habits, logs)
      && UsersConsistent(users, habits)
      && DistinctIds(badges)
    }

    constructor ()
      ensures Valid()
      ensures habits == map[] && created == [] && logs == [] && users == map[] && badges == []
    {
      habits, created, logs, users, badges := map[], [], [], map[], [];
    }

    /**
     * The cached metadata of every habit agrees with its log history: currentStreak is the
     * trailing run of adherent logs, longestStreak the longest run, so it covers currentStreak,
     * and lastLoggedDate is the date of the last log written.
     */
    lemma MetadataMatchesHistory(id: HabitId)
      requires Valid() && id in habits
      ensures var m := habits[id].streakMetadata;
        var h := History(logs, id);
        m.currentStreak == TrailingRun(Flags(h)) &&
        m.longestStreak == LongestRun(Flags(h)) &&
        m.longestStreak >= m.currentStreak &&
        m.lastLoggedDate == if h == [] then None else Some(h[|h| - 1].day)
    {
      assert Replayed(habits, logs, id);
      ReplayMatchesRuns(History(logs, id));
      ReplayLongestCoversCurrent(History(logs, id));
    }

    /** Appends one log for a (habit, date) not yet logged and rewrites the metadata by the rule. */
    method RecordLog(id: HabitId, logDate: Day, isAdherent: bool, notes: Option<string>) returns (log: StreakLog)
      requires Valid() && id in habits && FindLog(logs, id, logDate).None?
      modifies this
      ensures Valid()
      ensures var m := NextMeta(old(habits)[id].streakMetadata, isAdherent, logDate);
        log == StreakLog(id, logDate, isAdherent, notes, m.currentStreak) &&
        habits == old(habits)[id := old(habits)[id].(streakMetadata := m)]
      ensures logs == old(logs) + [log]
      ensures created == old(created) && users == old(users) && badges == old(badges)
    {
      var m := NextMeta(habits[id].streakMetadata, isAdherent, logDate);
      log := StreakLog(id, logDate, isAdherent, notes, m.currentStreak);
      var habits' := habits[id := habits[id].(streakMetadata := m)];
      LedgerAppend(habits, logs, log);
      UsersSameOwners(users, habits, habits');
      habits := habits';
      logs := logs + [log];
    }

    /**
     * `checkBadgeUnlocks`: scans the catalog for the owner of the habit and, when something
     * was unlocked, writes the grown achievedBadges list back.
     */
    method CheckBadgeUnlocks(id: HabitId, newStreak: nat) returns (newBadges: seq<Badge>)
      requires Valid()
      modifies this
      ensures Valid()
      ensures habits == old(habits) && created == old(created) && logs == old(logs) && badges == old(badges)
      ensures id !in habits ==> newBadges == [] && users == old(users)
      ensures id in habits ==> habits[id].userId in old(users)
      ensures id in habits ==>
        var owner := habits[id].userId;
        var held := old(users)[owner].achievedBadges;
        newBadges == Unlocked(badges, held, newStreak) &&
        users == if newBadges == [] then old(users)
                 else old(users)[owner := old(users)[owner].(achievedBadges := held + Ids(newBadges))]
    {
      newBadges := [];
      if id !in habits {
        return;
      }
      var owner := habits[id].userId;
      var achieved;
      achieved, newBadges := UnlockScan(badges, users[owner].achievedBadges, newStreak);
      if |newBadges| > 0 {
        UnlockedNoDup(badges, users[owner].achievedBadges, newStreak);
        var row := users[owner].(achievedBadges := achieved);
        assert UserConsistent(owner, users[owner], habits);
        UsersUpdate(users, habits, owner, row);
        users := users[owner := row];
      }
    }

    /**
     * POST /api/streaks: validate, refuse a second log for the same (habit, date), refuse an
     * unknown habit, append the log, overwrite the metadata, then evaluate badges.
     */
    method LogStreak(habitId: string, logDate: Option<Day>, isAdherent: Option<bool>, notes: Option<string>)
      returns (res: Result<LogResponse>)
      requires Valid()
      modifies this
      ensures Valid()
      ensures habitId == "" || logDate.None? || isAdherent.None? ==>
        res == Err(BadRequest) && unchanged(this)
      ensures habitId != "" && logDate.Some? && isAdherent.Some? && FindLog(old(logs), habitId, logDate.value).Some? ==>
        res == Err(Conflict) && unchanged(this)
      ensures habitId != "" && logDate.Some? && isAdherent.Some? &&
              FindLog(old(logs), habitId, logDate.value).None? && habitId !in old(habits) ==>
        res == Err(NotFound) && unchanged(this)
      ensures res.Ok? <==>
        habitId != "" && logDate.Some? && isAdherent.Some? &&
        FindLog(old(logs), habitId, logDate.value).None? && habitId in old(habits)
      ensures res.Ok? ==>
        var day := logDate.value;
        var m := NextMeta(old(habits)[habitId].streakMetadata, isAdherent.value, day);
        var log := StreakLog(habitId, day, isAdherent.value, StoredNotes(notes), m.currentStreak);
        var owner := old(habits)[habitId].userId;
        res.value.newStreak == m.currentStreak &&
        res.value.streakLog == log &&
        habits == old(habits)[habitId := old(habits)[habitId].(streakMetadata := m)] &&
        logs == old(logs) + [log] &&
        created == old(created) && badges == old(badges) &&
        owner in old(users) &&
        (var held := old(users)[owner].achievedBadges;
          res.value.badgesUnlocked == Unlocked(badges, held, m.currentStreak) &&
          users == if res.value.badgesUnlocked == [] then old(users)
                   else old(users)[owner := old(users)[owner].(achievedBadges := held + Ids(res.value.badgesUnlocked))])
    {
      if habitId == "" || logDate.None? || isAdherent.None? {
        return Err(BadRequest);
      }
      var day := logDate.value;
      if FindLog(logs, habitId, day).Some? {
        return Err(Conflict);
      }
      if habitId !in habits {
        return Err(NotFound);
      }
      var log := RecordLog(habitId, day, isAdherent.value, StoredNotes(notes));
      var unlocked := CheckBadgeUnlocks(habitId, log.streakLengthAtLog);
      res := Ok(LogResponse(log, log.streakLengthAtLog, unlocked));
    }

    /** GET /api/streaks: the latest 90 logs of a habit, latest first. */
    function StreakLogs(habitId: string): (r: Result<seq<StreakLog>>)
      reads this
      ensures habitId == "" <==> r == Err(BadRequest)
      ensures r.Ok? ==> r.value == RecentLogs(logs, habitId, StreakLogWindow)
    {
      if habitId == "" then Err(BadRequest) else Ok(RecentLogs(logs, habitId, StreakLogWindow))
    }

    /** GET /api/habits: the user's active habits newest first, each with its latest 30 logs. */
    function ListHabits(userId: string): (r: Result<seq<HabitWithLogs>>)
      reads this
      requires Valid()
      ensures userId == "" <==> r == Err(BadRequest)
      ensures r.Ok? ==>
        var ids := NewestFirst(created, habits, userId);
        |r.value| == |ids| &&
        forall i :: 0 <= i < |ids| ==>
          r.value[i] == HabitWithLogs(habits[ids[i]], RecentLogs(logs, ids[i], HabitLogWindow))
    {
      if userId == "" then Err(BadRequest)
      else
        var ids, hs, ls := NewestFirst(created, habits, userId), habits, logs;
        Ok(seq(|ids|, i requires 0 <= i < |ids| => HabitWithLogs(hs[ids[i]], RecentLogs(ls, ids[i], HabitLogWindow))))
    }

    /**
     * POST /api/habits: create a habit and append its id to the owner's activeHabits cache. The
     * insert of a habit whose owner has no user row violates the required relation and throws (500).
     */
    method CreateHabit(userId: UserId, name: string, description: string, goal: string,
                       category: Option<Category>, icon: string, newId: HabitId, today: Day)
      returns (res: Result<Habit>)
      requires Valid() && newId !in habits
      modifies this
      ensures Valid()
      ensures userId == "" || name == "" || category.None? ==> res == Err(BadRequest) && unchanged(this)
      ensures userId != "" && name != "" && category.Some? && userId !in old(users) ==>
        res == Err(Internal) && unchanged(this)
      ensures userId != "" && name != "" && category.Some? && userId in old(users) ==>
        res == Ok(NewHabit(newId, userId, name, description, goal, category.value, icon, today)) &&
        habits == old(habits)[newId := res.value] &&
        created == old(created) + [newId] &&
        logs == old(logs) && badges == old(badges) &&
        users == old(users)[userId := old(users)[userId].(activeHabits := old(users)[userId].activeHabits + [newId])]
    {
      if userId == "" || name == "" || category.None? {
        return Err(BadRequest);
      }
      if userId !in users {
        return Err(Internal);
      }
      var habit := NewHabit(newId, userId, name, description, goal, category.value, icon, today);
      var habits' := habits[newId := habit];
      LedgerNewHabit(habits, logs, habit);
      UsersSameOwners(users, habits, habits');
      HabitTableAdd(habits, created, habit);
      var row := users[userId].(activeHabits := users[userId].activeHabits + [newId]);
      assert UserConsistent(userId, users[userId], habits');
      assert UserConsistent(userId, row, habits');
      UsersUpdate(users, habits', userId, row);
      habits := habits';
      created := created + [newId];
      users := users[userId := row];
      res := Ok(habit);
    }

    /** PUT /api/habits: patch the supplied fields; an unknown id makes the update throw (500). */
    method UpdateHabit(id: string, patch: HabitPatch) returns (res: Result<Habit>)
      requires Valid()
      modifies this
      ensures Valid()
      ensures id == "" ==> res == Err(BadRequest) && unchanged(this)
      ensures id != "" && id !in old(habits) ==> res == Err(Internal) && unchanged(this)
      ensures id != "" && id in old(habits) ==>
        res == Ok(ApplyPatch(old(habits)[id], patch)) &&
        habits == old(habits)[id := res.value] &&
        created == old(created) && logs == old(logs) && users == old(users) && badges == old(badges)
    {
      if id == "" {
        return Err(BadRequest);
      }
      if id !in habits {
        return Err(Internal);
      }
      var h := ApplyPatch(habits[id], patch);
      var habits' := habits[id := h];
      LedgerSameMetadata(habits, habits', logs);
      UsersSameOwners(users, habits, habits');
      habits := habits';
      res := Ok(h);
    }

    /** DELETE /api/habits: soft delete, then drop the id from the owner's activeHabits cache. */
    method DeleteHabit(id: string) returns (res: Result<bool>)
      requires Valid()
      modifies this
      ensures Valid()
      ensures id == "" ==> res == Err(BadRequest) && unchanged(this)
      ensures id != "" && id !in old(habits) ==> res == Err(Internal) && unchanged(this)
      ensures id != "" && id in old(habits) ==>
        res == Ok(true) &&
        habits == Deactivated(old(habits), id) &&
        users == DropActive(old(users), old(habits)[id].userId, id) &&
        logs == old(logs) && created == old(created) && badges == old(badges)
    {
      if id == "" {
        return Err(BadRequest);
      }
      if id !in habits {
        return Err(Internal);
      }
      var owner := habits[id].userId;
      var habits' := Deactivated(habits, id);
      LedgerSameMetadata(habits, habits', logs);
      UsersSameOwners(users, habits, habits');
      var users' := DropActive(users, owner, id);
      if owner in users {
        var row := users[owner].(activeHabits := Without(users[owner].activeHabits, id));
        WithoutNoDup(users[owner].activeHabits, id);
        assert UserConsistent(owner, users[owner], habits');
        assert UserConsistent(owner, row, habits');
        UsersUpdate(users, habits', owner, row);
      }
      habits := habits';
      users := users';
      res := Ok(true);
    }

    /** GET /api/users: the user with their active habits, newest first. */
    function GetUser(farcasterId: string): (r: Result<UserWithHabits>)
      reads this
      requires Valid()
      ensures farcasterId == "" <==> r == Err(BadRequest)
      ensures farcasterId != "" && farcasterId !in users <==> r == Err(NotFound)
      ensures r.Ok? ==>
        r.value.user == users[farcasterId] &&
        r.value.habits == Records(NewestFirst(created, habits, farcasterId), habits)
    {
      if farcasterId == "" then Err(BadRequest)
      else if farcasterId !in users then Err(NotFound)
      else Ok(UserWithHabits(users[farcasterId], Records(NewestFirst(created, habits, farcasterId), habits)))
    }

    /** POST /api/users: upsert by farcasterId. */
    method UpsertUser(farcasterId: string, displayName: Option<string>, profilePicture: Option<string>)
      returns (res: Result<User>)
      requires Valid()
      modifies this
      ensures Valid()
      ensures farcasterId == "" ==> res == Err(BadRequest) && unchanged(this)
      ensures farcasterId != "" ==>
        var existing := if farcasterId in old(users) then Some(old(users)[farcasterId]) else None;
        res == Ok(Upserted(existing, farcasterId, displayName, profilePicture)) &&
        users == old(users)[farcasterId := res.value] &&
        habits == old(habits) && created == old(created) && logs == old(logs) && badges == old(badges)
    {
      if farcasterId == "" {
        return Err(BadRequest);
      }
      var existing := if farcasterId in users then Some(users[farcasterId]) else None;
      var u := Upserted(existing, farcasterId, displayName, profilePicture);
      if existing.Some? {
        assert UserConsistent(farcasterId, users[farcasterId], habits);
      }
      users := users[farcasterId := u];
      res := Ok(u);
    }

    /** Finds the user with this farcasterId or creates one with empty lists. */
    method FindOrCreateUser(farcasterId: UserId) returns (user: User)
      requires Valid()
      modifies this
      ensures Valid()
      ensures farcasterId in users && user == users[farcasterId]
      ensures farcasterId in old(users) ==> users == old(users)
      ensures farcasterId !in old(users) ==>
        user == User(farcasterId, None, None, [], []) && users == old(users)[farcasterId := user]
      ensures habits == old(habits) && created == old(created) && logs == old(logs) && badges == old(badges)
    {
      if farcasterId !in users {
        users := users[farcasterId := User(farcasterId, None, None, [], [])];
      }
      user := users[farcasterId];
    }

    /** The seeding loop: upsert each listed badge into the badge table by id. */
    method SeedBadgeTable(list: seq<Badge>)
      requires Valid()
      modifies this`badges
      ensures Valid()
      ensures badges == SeedAll(old(badges), list)
      ensures habits == old(habits) && created == old(created) && logs == old(logs) && users == old(users)
    {
      var table := badges;
      for i := 0 to |list|
        invariant DistinctIds(table)
        invariant table == SeedAll(old(badges), list[..i])
      {
        UpsertBadgeEffect(table, list[i]);
        assert list[..i + 1][..i] == list[..i];
        table := UpsertBadge(table, list[i]);
      }
      assert list[..|list|] == list;
      badges := table;
    }
  }
}
