/** The records of the habit tracker (lib/types.ts), with calendar dates as day numbers. */
module Types {

  type HabitId = string
  /** A user is identified by their farcasterId (unique in the user table). */
  type UserId = string
  type BadgeId = string
  /** A calendar date, as a count of days. */
  type Day = int

  datatype Option<+T> = None | Some(value: T)

  /** The HTTP error statuses the route handlers answer with: 400, 404, 409 and 500. */
  datatype ApiError = BadRequest | NotFound | Conflict | Internal

  datatype Result<+T> = Ok(value: T) | Err(error: ApiError)

  datatype Category = Health | Productivity | Learning | Social | Creative

  datatype Rarity = Common | Rare | Epic | Legendary

  datatype CriteriaKind = StreakCriteria | ConsistencyCriteria | MilestoneCriteria

  datatype UnlockCriteria = UnlockCriteria(kind: CriteriaKind, value: int, category: Option<string>)

  datatype Badge = Badge(
    id: BadgeId,
    name: string,
    description: string,
    iconUrl: string,
    unlockCriteria: UnlockCriteria,
    rarity: Rarity)

  datatype StreakMetadata = StreakMetadata(
    currentStreak: nat,
    longestStreak: nat,
    lastLoggedDate: Option<Day>)

  datatype Habit = Habit(
    id: HabitId,
    userId: UserId,
    name: string,
    description: string,
    goal: string,
    startDate: Day,
    isActive: bool,
    streakMetadata: StreakMetadata,
    category: Category,
    icon: string)

  /** A log record; its identity is the pair (habitId, logDate). */
  datatype StreakLog = StreakLog(
    habitId: HabitId,
    logDate: Day,
    isAdherent: bool,
    notes: Option<string>,
    streakLengthAtLog: nat)

  datatype User = User(
    farcasterId: UserId,
    displayName: Option<string>,
    profilePicture: Option<string>,
    activeHabits: seq<HabitId>,
    achievedBadges: seq<BadgeId>)

  /** The ids of a list of badges, in order. */
  function Ids(bs: seq<Badge>): (r: seq<BadgeId>)
    ensures |r| == |bs| && forall i :: 0 <= i < |bs| ==> r[i] == bs[i].id
  {
    seq(|bs|, i requires 0 <= i < |bs| => bs[i].id)
  }

  /** The name of each habit, in order. */
  function Names(hs: seq<Habit>): (r: seq<string>)
    ensures |r| == |hs| && forall i :: 0 <= i < |hs| ==> r[i] == hs[i].name
  {
    seq(|hs|, i requires 0 <= i < |hs| => hs[i].name)
  }
}
