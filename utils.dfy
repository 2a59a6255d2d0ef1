/**
 * The helpers of lib/utils.ts: the calendar-day test, the client-side streak count over a
 * habit's logs, the streak tier behind the streak emoji, and the badge colour by rarity.
 */
module Utils {
  import opened Types
  import opened Logs

  /** A calendar date in local time. */
  datatype CalendarDate = CalendarDate(year: int, month: int, day: int)

  /** `isToday`: the same day of the month, month and year as the clock's date. */
  function IsToday(date: CalendarDate, today: CalendarDate): (r: bool)
    ensures r <==> date == today
  {
    today.day == date.day && today.month == date.month && today.year == date.year
  }

  // ---------------------------------------------------------------------------
  // getDaysInStreak

  /** Milliseconds in a day: `1000 * 60 * 60 * 24`. */
  const MsPerDay: int := 86400000

  /** The adherent logs, in their original order (`filter(log => log.isAdherent)`). */
  function Adherent(logs: seq<StreakLog>): (r: seq<StreakLog>)
    ensures forall x :: x in r <==> x in logs && x.isAdherent
    ensures |r| <= |logs|
  {
    if logs == [] then []
    else (if logs[0].isAdherent then [logs[0]] else []) + Adherent(logs[1..])
  }

  /** The instant a log's date stands for: its midnight, in milliseconds. */
  function Midnight(d: Day): int {
    d * MsPerDay
  }

  /** Whole days from the log's midnight to `current`, rounded down. */
  function DiffDays(current: int, d: Day): int {
    (current - Midnight(d)) / MsPerDay
  }

  /**
   * Walking the logs latest first from the instant `current` (in milliseconds), the number
   * of logs counted before the first whose date lies two or more whole days back from the
   * previous one; a counted log's midnight becomes the new reference instant.
   */
  function StreakRun(sorted: seq<StreakLog>, current: int): (r: nat)
    ensures r <= |sorted|
  {
    if sorted == [] then 0
    else
      var diffDays := DiffDays(current, sorted[0].logDate);
      if diffDays == 0 || diffDays == 1 then 1 + StreakRun(sorted[1..], Midnight(sorted[0].logDate))
      else 0
  }

  /** The adherent logs, latest first. */
  function SortedAdherent(logs: seq<StreakLog>): seq<StreakLog>
  {
    SortByDate(Adherent(logs))
  }

  /** `getDaysInStreak`, with the clock's reading `now` (milliseconds) passed in. */
  method GetDaysInStreak(logs: seq<StreakLog>, now: int) returns (streak: nat)
    ensures streak == StreakRun(SortedAdherent(logs), now)
    ensures streak <= |Adherent(logs)|
  {
    var sortedLogs := SortedAdherent(logs);
    if |sortedLogs| == 0 {
      return 0;
    }
    streak := 0;
    var currentDate := now;
    var i := 0;
    while i < |sortedLogs|
      invariant 0 <= i <= |sortedLogs|
      invariant streak + StreakRun(sortedLogs[i..], currentDate) == StreakRun(sortedLogs, now)
    {
      var logDate := Midnight(sortedLogs[i].logDate);
      var diffDays := DiffDays(currentDate, sortedLogs[i].logDate);
      assert sortedLogs[i..][1..] == sortedLogs[i + 1..];
      if diffDays == 0 || diffDays == 1 {
        streak := streak + 1;
        currentDate := logDate;
      } else {
        break;
      }
      i := i + 1;
    }
  }

  /**
   * The i-th counted log lies on one of the days from i + 1 days before the day of `current`
   * up to that day: counted logs form a chain of days with no day missing.
   */
  lemma {:induction false} StreakRunWindow(sorted: seq<StreakLog>, current: int)
    ensures forall i :: 0 <= i < StreakRun(sorted, current) ==>
      current / MsPerDay - (i + 1) <= sorted[i].logDate <= current / MsPerDay
  {
    if sorted != [] && StreakRun(sorted, current) > 0 {
      var d := sorted[0].logDate;
      StreakRunWindow(sorted[1..], Midnight(d));
      assert Midnight(d) / MsPerDay == d;
      assert current / MsPerDay - 1 <= d <= current / MsPerDay;
      forall i | 1 <= i < StreakRun(sorted, current)
        ensures current / MsPerDay - (i + 1) <= sorted[i].logDate <= current / MsPerDay
      {
        assert sorted[i] == sorted[1..][i - 1];
      }
    }
  }

  /** The walk stops at the first log two or more days before its predecessor (or after it). */
  lemma {:induction false} StreakRunStopsAtGap(sorted: seq<StreakLog>, current: int)
    ensures var k := StreakRun(sorted, current);
      k < |sorted| ==>
        var previous := if k == 0 then current else Midnight(sorted[k - 1].logDate);
        DiffDays(previous, sorted[k].logDate) != 0 && DiffDays(previous, sorted[k].logDate) != 1
  {
    if sorted != [] && StreakRun(sorted, current) > 0 {
      StreakRunStopsAtGap(sorted[1..], Midnight(sorted[0].logDate));
      var k := StreakRun(sorted, current);
      if k < |sorted| {
        assert sorted[k] == sorted[1..][k - 1];
        if k > 1 {
          assert sorted[k - 1] == sorted[1..][k - 2];
        }
      }
    }
  }

  /**
   * One log a day from `start` (today or yesterday) backwards, with no day missing: every one
   * of them is counted.
   */
  lemma {:induction false} DailyLogsAllCount(sorted: seq<StreakLog>, current: int, start: int)
    requires start == current / MsPerDay || start == current / MsPerDay - 1
    requires forall i :: 0 <= i < |sorted| ==> sorted[i].logDate == start - i
    ensures StreakRun(sorted, current) == |sorted|
  {
    if sorted != [] {
      var next := Midnight(sorted[0].logDate);
      assert next / MsPerDay == start;
      forall i | 0 <= i < |sorted[1..]| ensures sorted[1..][i].logDate == (start - 1) - i {
        assert sorted[1..][i] == sorted[i + 1];
      }
      DailyLogsAllCount(sorted[1..], next, start - 1);
    }
  }

  // ---------------------------------------------------------------------------
  // getStreakEmoji and getBadgeColor

  /** The seven streak emoji, from the smallest streak to the largest. */
  datatype StreakTier = Seedling | Muscle | Star | Lightning | Fire | Gem | Trophy

  function TierRank(t: StreakTier): nat {
    match t
    case Seedling => 0
    case Muscle => 1
    case Star => 2
    case Lightning => 3
    case Fire => 4
    case Gem => 5
    case Trophy => 6
  }

  /** `getStreakEmoji`: thresholds 100, 50, 30, 14, 7 and 3, tested from the top. */
  function StreakTierOf(streak: int): StreakTier
  {
    if streak >= 100 then Trophy
    else if streak >= 50 then Gem
    else if streak >= 30 then Fire
    else if streak >= 14 then Lightning
    else if streak >= 7 then Star
    else if streak >= 3 then Muscle
    else Seedling
  }

  /**
   * Each tier covers one band of streaks: [100, ∞), [50, 100), [30, 50), [14, 30), [7, 14),
   * [3, 7), and everything below 3, negative counts included.
   */
  lemma StreakTierBands(streak: int)
    ensures StreakTierOf(streak) == Trophy <==> streak >= 100
    ensures StreakTierOf(streak) == Gem <==> 50 <= streak < 100
    ensures StreakTierOf(streak) == Fire <==> 30 <= streak < 50
    ensures StreakTierOf(streak) == Lightning <==> 14 <= streak < 30
    ensures StreakTierOf(streak) == Star <==> 7 <= streak < 14
    ensures StreakTierOf(streak) == Muscle <==> 3 <= streak < 7
    ensures StreakTierOf(streak) == Seedling <==> streak < 3
  {
  }

  /** A longer streak never shows a lower tier. */
  lemma StreakTierMonotone(a: int, b: int)
    requires a <= b
    ensures TierRank(StreakTierOf(a)) <= TierRank(StreakTierOf(b))
  {
  }

  /** The lower-case rarity names the colour table is keyed by. */
  function RarityKey(r: Rarity): string {
    match r
    case Common => "common"
    case Rare => "rare"
    case Epic => "epic"
    case Legendary => "legendary"
  }

  /** `getBadgeColor`: a gradient per rarity; any other string gets the grey one. */
  function BadgeColor(rarity: string): string
  {
    if rarity == "legendary" then "from-yellow-400 to-orange-500"
    else if rarity == "epic" then "from-purple-400 to-pink-500"
    else if rarity == "rare" then "from-blue-400 to-cyan-500"
    else "from-gray-400 to-gray-500"
  }

  /**
   * Legendary, epic and rare each get a colour of their own; common and every other string
   * get the grey default.
   */
  lemma BadgeColorPerRarity(a: Rarity, b: Rarity, other: string)
    ensures a != b && a != Common && b != Common ==> BadgeColor(RarityKey(a)) != BadgeColor(RarityKey(b))
    ensures a != Common ==> BadgeColor(RarityKey(a)) != BadgeColor(other) || other == RarityKey(a)
    ensures other != "legendary" && other != "epic" && other != "rare" ==>
      BadgeColor(other) == BadgeColor(RarityKey(Common)) == "from-gray-400 to-gray-500"
  {
  }
}
