/**
 * The streak-log table as a sequence of rows in insertion order: lookup by the unique key
 * (habitId, logDate), the rows of one habit, and the "latest first, at most n" ordering the
 * log queries use.
 */
module Logs {
  import opened Types
  import opened Streak

  /** The rows of one habit, in insertion order (`where: { habitId }`). */
  function LogsOf(logs: seq<StreakLog>, id: HabitId): (r: seq<StreakLog>)
    ensures forall x :: x in r <==> x in logs && x.habitId == id
    ensures |r| <= |logs|
  {
    if logs == [] then []
    else
      var last := logs[|logs| - 1];
      LogsOf(logs[..|logs| - 1], id) + (if last.habitId == id then [last] else [])
  }

  /** A habit with no rows has an empty history. */
  lemma {:induction false} LogsOfAbsent(logs: seq<StreakLog>, id: HabitId)
    requires forall i :: 0 <= i < |logs| ==> logs[i].habitId != id
    ensures LogsOf(logs, id) == []
  {
    if logs != [] {
      LogsOfAbsent(logs[..|logs| - 1], id);
    }
  }

  /** The position of the row with key (id, day), if there is one (`findUnique({ habitId_logDate })`). */
  function FindLog(logs: seq<StreakLog>, id: HabitId, day: Day): (r: Option<nat>)
    ensures r.Some? ==> r.value < |logs| && logs[r.value].habitId == id && logs[r.value].logDate == day
    ensures r.None? ==> forall i :: 0 <= i < |logs| ==> !(logs[i].habitId == id && logs[i].logDate == day)
  {
    if logs == [] then None
    else if logs[0].habitId == id && logs[0].logDate == day then Some(0)
    else match FindLog(logs[1..], id, day)
      case None => None
      case Some(k) => Some(k + 1)
  }

  /** No two rows share a (habitId, logDate) key. */
  predicate UniqueKeys(logs: seq<StreakLog>) {
    forall i, j :: 0 <= i < j < |logs| && logs[i].habitId == logs[j].habitId ==> logs[i].logDate != logs[j].logDate
  }

  /** The (date, adherence) sequence of a list of rows. */
  function Entries(ls: seq<StreakLog>): (r: seq<Entry>)
    ensures |r| == |ls| && forall i :: 0 <= i < |ls| ==> r[i] == Entry(ls[i].logDate, ls[i].isAdherent)
  {
    seq(|ls|, i requires 0 <= i < |ls| => Entry(ls[i].logDate, ls[i].isAdherent))
  }

  /** The history of one habit: its rows in the order they were written. */
  function History(logs: seq<StreakLog>, id: HabitId): seq<Entry>
  {
    Entries(LogsOf(logs, id))
  }

  /** Appending a row extends the history of its own habit by one entry and no other. */
  lemma HistoryAppend(logs: seq<StreakLog>, x: StreakLog, id: HabitId)
    ensures History(logs + [x], id) ==
      History(logs, id) + (if x.habitId == id then [Entry(x.logDate, x.isAdherent)] else [])
  {
    assert (logs + [x])[..|logs|] == logs;
    var a := LogsOf(logs, id);
    if x.habitId == id {
      assert Entries(a + [x]) == Entries(a) + [Entry(x.logDate, x.isAdherent)];
    } else {
      assert LogsOf(logs + [x], id) == a + [];
    }
  }

  predicate DescByDate(s: seq<StreakLog>) {
    forall i, j :: 0 <= i < j < |s| ==> s[i].logDate >= s[j].logDate
  }

  predicate StrictlyDescByDate(s: seq<StreakLog>) {
    forall i, j :: 0 <= i < j < |s| ==> s[i].logDate > s[j].logDate
  }

  predicate DistinctDates(s: seq<StreakLog>) {
    forall i, j :: 0 <= i < j < |s| ==> s[i].logDate != s[j].logDate
  }

  /** Inserts x before the first row that is not later than it. */
  function InsertByDate(x: StreakLog, s: seq<StreakLog>): (r: seq<StreakLog>)
    ensures |r| == |s| + 1 && multiset(r) == multiset(s) + multiset{x}
    ensures forall y :: y in r <==> y == x || y in s
  {
    if s == [] || x.logDate >= s[0].logDate then [x] + s
    else
      assert s == [s[0]] + s[1..];
      [s[0]] + InsertByDate(x, s[1..])
  }

  /** In a list sorted latest first, the head is the latest row (strictly, when sorted strictly). */
  lemma HeadIsLatest(s: seq<StreakLog>)
    requires s != [] && DescByDate(s)
    ensures forall y :: y in s[1..] ==> y.logDate <= s[0].logDate
    ensures StrictlyDescByDate(s) ==> forall y :: y in s[1..] ==> y.logDate < s[0].logDate
  {
    forall y | y in s[1..] ensures y.logDate <= s[0].logDate && (StrictlyDescByDate(s) ==> y.logDate < s[0].logDate) {
      var k :| 0 <= k < |s[1..]| && s[1..][k] == y;
      assert s[k + 1] == y;
    }
  }

  /** Prepending a row no earlier than every other keeps a list sorted latest first. */
  lemma PrependLatest(h: StreakLog, t: seq<StreakLog>)
    requires DescByDate(t) && forall y :: y in t ==> y.logDate <= h.logDate
    ensures DescByDate([h] + t)
  {
    var r := [h] + t;
    forall i, j | 0 <= i < j < |r| ensures r[i].logDate >= r[j].logDate {
      if i > 0 {
        assert r[i] == t[i - 1] && r[j] == t[j - 1];
      } else {
        assert r[j] in t;
      }
    }
  }

  /** Inserting into a list sorted latest first keeps it sorted. */
  lemma {:induction false} InsertByDateOrdered(x: StreakLog, s: seq<StreakLog>)
    requires DescByDate(s)
    ensures DescByDate(InsertByDate(x, s))
  {
    if s == [] || x.logDate >= s[0].logDate {
      if s != [] {
        HeadIsLatest(s);
        assert s == [s[0]] + s[1..];
      }
      PrependLatest(x, s);
    } else {
      HeadIsLatest(s);
      InsertByDateOrdered(x, s[1..]);
      PrependLatest(s[0], InsertByDate(x, s[1..]));
    }
  }

  /** Prepending a row later than every other keeps a list strictly sorted latest first. */
  lemma PrependLater(h: StreakLog, t: seq<StreakLog>)
    requires StrictlyDescByDate(t) && forall y :: y in t ==> y.logDate < h.logDate
    ensures StrictlyDescByDate([h] + t)
  {
    var r := [h] + t;
    forall i, j | 0 <= i < j < |r| ensures r[i].logDate > r[j].logDate {
      assert r[j] == t[j - 1];
      if i > 0 {
        assert r[i] == t[i - 1];
      } else {
        assert r[j] in t;
      }
    }
  }

  /** Inserting a row whose date is new into a strictly sorted list keeps it strictly sorted. */
  lemma {:induction false} InsertByDateStrict(x: StreakLog, s: seq<StreakLog>)
    requires StrictlyDescByDate(s) && forall y :: y in s ==> y.logDate != x.logDate
    ensures StrictlyDescByDate(InsertByDate(x, s))
  {
    if s == [] || x.logDate >= s[0].logDate {
      assert InsertByDate(x, s) == [x] + s;
      if s != [] {
        HeadIsLatest(s);
        assert s == [s[0]] + s[1..];
      }
      forall y | y in s ensures y.logDate < x.logDate {
        if y != s[0] {
          assert y in s[1..];
        }
      }
      PrependLater(x, s);
    } else {
      var t := InsertByDate(x, s[1..]);
      assert InsertByDate(x, s) == [s[0]] + t;
      HeadIsLatest(s);
      assert StrictlyDescByDate(s[1..]);
      InsertByDateStrict(x, s[1..]);
      forall y | y in t ensures y.logDate < s[0].logDate {
        if y != x {
          assert y in s[1..];
        }
      }
      PrependLater(s[0], t);
    }
  }

  /** `sort((a, b) => b.logDate - a.logDate)`: a permutation of the input. */
  function SortByDate(s: seq<StreakLog>): (r: seq<StreakLog>)
    ensures |r| == |s| && multiset(r) == multiset(s)
    ensures forall y :: y in r <==> y in s
  {
    if s == [] then []
    else
      assert s == [s[0]] + s[1..];
      InsertByDate(s[0], SortByDate(s[1..]))
  }

  /** The sorted list is latest first, strictly so when the dates are distinct. */
  lemma {:induction false} SortByDateOrdered(s: seq<StreakLog>)
    ensures DescByDate(SortByDate(s))
    ensures DistinctDates(s) ==> StrictlyDescByDate(SortByDate(s))
  {
    if s != [] {
      SortByDateOrdered(s[1..]);
      InsertByDateOrdered(s[0], SortByDate(s[1..]));
      if DistinctDates(s) {
        assert DistinctDates(s[1..]);
        forall y | y in SortByDate(s[1..]) ensures y.logDate != s[0].logDate {
          var k :| 0 <= k < |s[1..]| && s[1..][k] == y;
          assert s[k + 1] == y;
        }
        InsertByDateStrict(s[0], SortByDate(s[1..]));
      }
    }
  }

  function Min(a: nat, b: nat): nat { if a <= b then a else b }

  /** The latest `limit` rows, latest first (`orderBy: { logDate: 'desc' }, take: limit`). */
  function Newest(ls: seq<StreakLog>, limit: nat): seq<StreakLog>
  {
    var sorted := SortByDate(ls);
    sorted[..Min(limit, |sorted|)]
  }

  /**
   * With distinct dates, Newest returns rows of the input, strictly latest first, and leaves a
   * row out only when it returned `limit` rows, every one of them later than the one left out.
   */
  lemma NewestSpec(ls: seq<StreakLog>, limit: nat)
    requires DistinctDates(ls)
    ensures var r := Newest(ls, limit);
      |r| == Min(limit, |ls|) &&
      (forall y :: y in r ==> y in ls) &&
      StrictlyDescByDate(r) &&
      (forall y :: y in ls && y !in r ==> |r| == limit && forall i :: 0 <= i < |r| ==> y.logDate < r[i].logDate)
  {
    var sorted := SortByDate(ls);
    SortByDateOrdered(ls);
    var r := Newest(ls, limit);
    forall y | y in ls && y !in r
      ensures |r| == limit && forall i :: 0 <= i < |r| ==> y.logDate < r[i].logDate
    {
      var k :| 0 <= k < |sorted| && sorted[k] == y;
      assert k >= |r|;
    }
  }

  /** The logs of one habit, latest first, at most `limit` of them. */
  function RecentLogs(logs: seq<StreakLog>, id: HabitId, limit: nat): (r: seq<StreakLog>)
    ensures |r| <= limit
  {
    Newest(LogsOf(logs, id), limit)
  }

  /** A habit's rows have distinct dates when the table's keys are unique. */
  lemma {:induction false} LogsOfDistinctDates(logs: seq<StreakLog>, id: HabitId)
    requires UniqueKeys(logs)
    ensures DistinctDates(LogsOf(logs, id))
  {
    if logs != [] {
      var init := logs[..|logs| - 1];
      var last := logs[|logs| - 1];
      assert UniqueKeys(init);
      LogsOfDistinctDates(init, id);
      if last.habitId == id {
        var a := LogsOf(init, id);
        forall i | 0 <= i < |a| ensures a[i].logDate != last.logDate {
          assert a[i] in init;
          var k :| 0 <= k < |init| && init[k] == a[i];
        }
      }
    }
  }

  /**
   * The log listing of one habit: only that habit's rows, strictly latest first, and every row
   * of the habit not returned is older than all returned, which are then exactly `limit`.
   */
  lemma RecentLogsSpec(logs: seq<StreakLog>, id: HabitId, limit: nat)
    requires UniqueKeys(logs)
    ensures var r := RecentLogs(logs, id, limit);
      (forall y :: y in r ==> y in logs && y.habitId == id) &&
      StrictlyDescByDate(r) &&
      (forall y :: y in logs && y.habitId == id && y !in r ==>
        |r| == limit && forall i :: 0 <= i < |r| ==> y.logDate < r[i].logDate)
  {
    LogsOfDistinctDates(logs, id);
    NewestSpec(LogsOf(logs, id), limit);
  }
}
