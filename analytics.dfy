/**
 * The aggregates of components/Analytics.tsx: best streak, average consistency, the weekly
 * progress over the loaded logs, and the per-habit completion rate, each percentage rounded
 * to the nearest integer.
 */
module Analytics {
  import opened Types
  import opened Logs
  import opened Utils

  /** `Math.round(part / whole * 100)`, or 0 when `whole` is 0. */
  function Percent(part: nat, whole: nat): nat
  {
    if whole == 0 then 0 else (200 * part + whole) / (2 * whole)
  }

  /** For a positive whole, Percent is the integer nearest to 100 * part / whole, halves rounded up. */
  lemma PercentRounds(part: nat, whole: nat)
    requires whole > 0
    ensures var r := Percent(part, whole);
      2 * whole * r <= 200 * part + whole < 2 * whole * (r + 1)
  {
    var n, d := 200 * part + whole, 2 * whole;
    assert n == d * (n / d) + n % d;
  }

  /** A share of a whole is at most 100 percent; all of it is exactly 100 and none of it 0. */
  lemma PercentBounds(part: nat, whole: nat)
    requires part <= whole
    ensures Percent(part, whole) <= 100
    ensures whole > 0 && part == whole ==> Percent(part, whole) == 100
    ensures part == 0 ==> Percent(part, whole) == 0
  {
    var r := Percent(part, whole);
    if whole > 0 {
      PercentRounds(part, whole);
      // 2 * whole * r <= 200 * part + whole <= 201 * whole < 2 * whole * 101
      MulCancel(2 * whole, r, 101);
      if part == whole {
        // 2 * whole * 100 < 201 * whole < 2 * whole * (r + 1)
        MulCancel(2 * whole, 100, r + 1);
      }
      if part == 0 {
        // 2 * whole * r <= whole < 2 * whole * 1
        MulCancel(2 * whole, r, 1);
      }
    }
  }

  /** Dividing a strict inequality by a common factor. */
  lemma MulCancel(k: nat, a: nat, b: nat)
    requires k * a < k * b
    ensures a < b
  {
  }

  // ---------------------------------------------------------------------------
  // getBestStreak and getAverageConsistency

  /** `getBestStreak`: the largest longestStreak, 0 for no habits. */
  function BestStreak(hs: seq<Habit>): (r: nat)
    ensures forall i :: 0 <= i < |hs| ==> hs[i].streakMetadata.longestStreak <= r
    ensures hs == [] ==> r == 0
    ensures hs != [] ==> exists i :: 0 <= i < |hs| && hs[i].streakMetadata.longestStreak == r
  {
    if hs == [] then 0
    else
      var rest := BestStreak(hs[1..]);
      var here := hs[0].streakMetadata.longestStreak;
      assert forall i :: 1 <= i < |hs| ==> hs[i] == hs[1..][i - 1];
      if hs[1..] == [] || here >= rest then here
      else
        var k :| 0 <= k < |hs[1..]| && hs[1..][k].streakMetadata.longestStreak == rest;
        assert hs[k + 1].streakMetadata.longestStreak == rest;
        rest
  }

  /** How many habits have a current streak above 0. */
  function OnStreak(hs: seq<Habit>): (r: nat)
    ensures r <= |hs|
    ensures r == 0 <==> forall i :: 0 <= i < |hs| ==> hs[i].streakMetadata.currentStreak == 0
  {
    if hs == [] then 0
    else
      assert forall i :: 1 <= i < |hs| ==> hs[i] == hs[1..][i - 1];
      (if hs[0].streakMetadata.currentStreak > 0 then 1 else 0) + OnStreak(hs[1..])
  }

  /** `getAverageConsistency`: the rounded percentage of habits on a streak, 0 for no habits. */
  function AverageConsistency(hs: seq<Habit>): nat
  {
    if |hs| == 0 then 0 else Percent(OnStreak(hs), |hs|)
  }

  /** The average consistency lies in 0..100, is 0 when no habit is on a streak and 100 when all are. */
  lemma AverageConsistencySpec(hs: seq<Habit>)
    ensures AverageConsistency(hs) <= 100
    ensures (forall i :: 0 <= i < |hs| ==> hs[i].streakMetadata.currentStreak == 0) ==> AverageConsistency(hs) == 0
    ensures hs != [] && (forall i :: 0 <= i < |hs| ==> hs[i].streakMetadata.currentStreak > 0) ==>
      AverageConsistency(hs) == 100
  {
    PercentBounds(OnStreak(hs), |hs|);
    if hs != [] && forall i :: 0 <= i < |hs| ==> hs[i].streakMetadata.currentStreak > 0 {
      AllOnStreak(hs);
    }
  }

  lemma {:induction false} AllOnStreak(hs: seq<Habit>)
    requires forall i :: 0 <= i < |hs| ==> hs[i].streakMetadata.currentStreak > 0
    ensures OnStreak(hs) == |hs|
  {
    if hs != [] {
      assert forall i :: 1 <= i < |hs| ==> hs[i] == hs[1..][i - 1];
      AllOnStreak(hs[1..]);
    }
  }

  // ---------------------------------------------------------------------------
  // getWeeklyProgress

  /** A log's date (its UTC midnight) lies between seven days before `now` and `now`. */
  predicate InWeek(log: StreakLog, now: int) {
    now - 7 * MsPerDay <= log.logDate * MsPerDay <= now
  }

  /** The adherent logs dated within the week before `now`. */
  function WeeklyCompleted(logs: seq<StreakLog>, now: int): (r: nat)
    ensures r <= |logs|
  {
    if logs == [] then 0
    else (if logs[0].isAdherent && InWeek(logs[0], now) then 1 else 0) + WeeklyCompleted(logs[1..], now)
  }

  datatype Progress = Progress(completed: nat, total: nat, percentage: nat)

  /** `getWeeklyProgress`: adherent logs of the last week out of seven per habit. */
  function WeeklyProgress(habits: seq<Habit>, logs: seq<StreakLog>, now: int): (p: Progress)
    ensures p.total == 7 * |habits| && p.completed <= |logs|
    ensures p.total == 0 ==> p.percentage == 0
    ensures p.completed <= p.total ==> p.percentage <= 100
  {
    var completed := WeeklyCompleted(logs, now);
    var total := |habits| * 7;
    var p := Progress(completed, total, Percent(completed, total));
    if completed <= total then PercentBounds(completed, total); p else p
  }

  /**
   * In day numbers, the week covers today and the seven days before it when `now` is exactly
   * midnight, and today and the six days before it at any other time of day.
   */
  lemma InWeekDays(log: StreakLog, now: int)
    ensures var today := now / MsPerDay;
      InWeek(log, now) <==>
        log.logDate <= today &&
        log.logDate >= (if now % MsPerDay == 0 then today - 7 else today - 6)
  {
    var today, rem := now / MsPerDay, now % MsPerDay;
    assert now == today * MsPerDay + rem;
    var d := log.logDate;
    if d <= today {
      assert d * MsPerDay <= today * MsPerDay;
    } else {
      assert d * MsPerDay >= (today + 1) * MsPerDay;
    }
    if d >= today - 6 {
      assert d * MsPerDay >= (today - 6) * MsPerDay;
    } else if d == today - 7 {
      assert d * MsPerDay == today * MsPerDay - 7 * MsPerDay;
    } else {
      assert d * MsPerDay <= (today - 8) * MsPerDay;
    }
  }

  /** Only adherent logs count: dropping the others changes nothing. */
  lemma {:induction false} WeeklyCompletedAdherentOnly(logs: seq<StreakLog>, now: int)
    ensures WeeklyCompleted(logs, now) == WeeklyCompleted(Adherent(logs), now)
  {
    if logs != [] {
      WeeklyCompletedAdherentOnly(logs[1..], now);
      if logs[0].isAdherent {
        assert Adherent(logs) == [logs[0]] + Adherent(logs[1..]);
        assert ([logs[0]] + Adherent(logs[1..]))[1..] == Adherent(logs[1..]);
      } else {
        assert Adherent(logs) == Adherent(logs[1..]);
      }
    }
  }

  // ---------------------------------------------------------------------------
  // Per-habit completion rate

  /** The rounded share of a habit's loaded logs that are adherent, 0 with no logs. */
  function CompletionRate(habitId: HabitId, logs: seq<StreakLog>): nat
  {
    var habitLogs := LogsOf(logs, habitId);
    var completedLogs := |Adherent(habitLogs)|;
    if |habitLogs| > 0 then Percent(completedLogs, |habitLogs|) else 0
  }

  /** The completion rate lies in 0..100. */
  lemma CompletionRateBounded(habitId: HabitId, logs: seq<StreakLog>)
    ensures CompletionRate(habitId, logs) <= 100
  {
    var hl := LogsOf(logs, habitId);
    PercentBounds(|Adherent(hl)|, |hl|);
  }

  /** The completion rate is 100 when the habit has logs and every one of them is adherent. */
  lemma CompletionRateAllAdherent(habitId: HabitId, logs: seq<StreakLog>)
    requires var hl := LogsOf(logs, habitId); hl != [] && forall i :: 0 <= i < |hl| ==> hl[i].isAdherent
    ensures CompletionRate(habitId, logs) == 100
  {
    var hl := LogsOf(logs, habitId);
    AdherentCount(hl);
    PercentBounds(|Adherent(hl)|, |hl|);
  }

  /** The completion rate is 0 when no log of the habit is adherent. */
  lemma CompletionRateNoneAdherent(habitId: HabitId, logs: seq<StreakLog>)
    requires forall i :: 0 <= i < |logs| && logs[i].habitId == habitId ==> !logs[i].isAdherent
    ensures CompletionRate(habitId, logs) == 0
  {
    var hl := LogsOf(logs, habitId);
    NoneAdherent(logs, habitId);
    AdherentCount(hl);
    PercentBounds(0, |hl|);
  }

  /** A habit with no adherent row in the table has no adherent row among its own. */
  lemma NoneAdherent(logs: seq<StreakLog>, habitId: HabitId)
    requires forall i :: 0 <= i < |logs| && logs[i].habitId == habitId ==> !logs[i].isAdherent
    ensures var hl := LogsOf(logs, habitId); forall i :: 0 <= i < |hl| ==> !hl[i].isAdherent
  {
    var hl := LogsOf(logs, habitId);
    forall i | 0 <= i < |hl| ensures !hl[i].isAdherent {
      assert hl[i] in logs;
      var k :| 0 <= k < |logs| && logs[k] == hl[i];
    }
  }

  /** All adherent: the filter keeps everything; none adherent: it keeps nothing. */
  lemma {:induction false} AdherentCount(ls: seq<StreakLog>)
    ensures (forall i :: 0 <= i < |ls| ==> ls[i].isAdherent) ==> |Adherent(ls)| == |ls|
    ensures (forall i :: 0 <= i < |ls| ==> !ls[i].isAdherent) ==> |Adherent(ls)| == 0
  {
    if ls != [] {
      assert forall i :: 1 <= i < |ls| ==> ls[i] == ls[1..][i - 1];
      AdherentCount(ls[1..]);
    }
  }
}
