/**
 * The streak rule of the logging transaction (app/api/streaks/route.ts:48-49) and what
 * replaying it over a habit's log history computes.
 */
module Streak {
  import opened Types
  import opened Seqs

  function Max(a: int, b: int): int { if a >= b then a else b }

  /** The metadata of a newly created habit: both counters zero, never logged. */
  function Fresh(): StreakMetadata {
    StreakMetadata(0, 0, None)
  }

  /**
   * The rule: an adherent log extends the streak by one, any other log resets it to zero;
   * the longest streak is the maximum of the old longest and the new streak. The rule does
   * not look at lastLoggedDate, so a gap between logged dates does not reset the streak.
   */
  function NextMeta(m: StreakMetadata, isAdherent: bool, logDate: Day): (r: StreakMetadata)
    ensures r.currentStreak == (if isAdherent then m.currentStreak + 1 else 0)
    ensures r.longestStreak >= r.currentStreak && r.longestStreak >= m.longestStreak
    ensures r.longestStreak == m.longestStreak || r.longestStreak == r.currentStreak
    ensures r.lastLoggedDate == Some(logDate)
  {
    var newStreak := if isAdherent then m.currentStreak + 1 else 0;
    StreakMetadata(newStreak, Max(m.longestStreak, newStreak), Some(logDate))
  }

  /** The previous lastLoggedDate plays no part in the rule. */
  lemma GapIgnored(m: StreakMetadata, previous: Option<Day>, isAdherent: bool, logDate: Day)
    ensures NextMeta(m.(lastLoggedDate := previous), isAdherent, logDate) == NextMeta(m, isAdherent, logDate)
  {
  }

  /** One entry of a habit's history: the date logged and whether it was adherent. */
  datatype Entry = Entry(day: Day, adherent: bool)

  /** The metadata obtained by applying the rule to each entry, oldest first, from Fresh(). */
  function Replay(h: seq<Entry>): StreakMetadata
  {
    if h == [] then Fresh()
    else NextMeta(Replay(h[..|h| - 1]), h[|h| - 1].adherent, h[|h| - 1].day)
  }

  function Flags(h: seq<Entry>): (f: seq<bool>)
    ensures |f| == |h| && forall i :: 0 <= i < |h| ==> f[i] == h[i].adherent
  {
    seq(|h|, i requires 0 <= i < |h| => h[i].adherent)
  }

  predicate AllTrue(f: seq<bool>) {
    forall i :: 0 <= i < |f| ==> f[i]
  }

  /** A run of `len` adherent entries starting at position i. */
  predicate RunAt(f: seq<bool>, i: int, len: nat) {
    0 <= i && i + len <= |f| && AllTrue(f[i..i + len])
  }

  /** The number of adherent entries at the end of f. */
  function TrailingRun(f: seq<bool>): nat
  {
    if f == [] || !f[|f| - 1] then 0 else 1 + TrailingRun(f[..|f| - 1])
  }

  /** The length of the longest run of adherent entries anywhere in f. */
  function LongestRun(f: seq<bool>): nat
  {
    if f == [] then 0 else Max(LongestRun(f[..|f| - 1]), TrailingRun(f))
  }

  /** TrailingRun is the longest all-adherent suffix: it is one, and the entry before it is not adherent. */
  lemma {:induction false} TrailingRunIsMaximalSuffix(f: seq<bool>)
    ensures TrailingRun(f) <= |f|
    ensures AllTrue(f[|f| - TrailingRun(f)..])
    ensures TrailingRun(f) < |f| ==> !f[|f| - 1 - TrailingRun(f)]
  {
    if f != [] && f[|f| - 1] {
      var p := f[..|f| - 1];
      TrailingRunIsMaximalSuffix(p);
      assert f[|f| - TrailingRun(f)..] == p[|p| - TrailingRun(p)..] + [f[|f| - 1]];
    }
  }

  /** Any all-adherent window ending at the end of f is no longer than TrailingRun(f). */
  lemma {:induction false} SuffixRunBound(f: seq<bool>, i: nat)
    requires i <= |f| && AllTrue(f[i..])
    ensures |f| - i <= TrailingRun(f)
  {
    if i < |f| {
      var p := f[..|f| - 1];
      assert f[|f| - 1] == f[i..][|f| - 1 - i];
      assert p[i..] == f[i..|f| - 1];
      SuffixRunBound(p, i);
    }
  }

  /** Every run of adherent entries is at most LongestRun(f) long. */
  lemma {:induction false} LongestRunBoundsEveryRun(f: seq<bool>, i: nat, len: nat)
    requires RunAt(f, i, len)
    ensures len <= LongestRun(f)
  {
    if i + len == |f| {
      assert f[i..] == f[i..i + len];
      SuffixRunBound(f, i);
    } else {
      var p := f[..|f| - 1];
      assert p[i..i + len] == f[i..i + len];
      LongestRunBoundsEveryRun(p, i, len);
    }
  }

  /** Some run of adherent entries is exactly LongestRun(f) long. */
  lemma {:induction false} LongestRunAttained(f: seq<bool>)
    ensures exists i :: RunAt(f, i, LongestRun(f))
  {
    if f == [] {
      assert LongestRun(f) == 0;
      assert RunAt(f, 0, LongestRun(f));
    } else {
      var p := f[..|f| - 1];
      if LongestRun(p) >= TrailingRun(f) {
        LongestRunAttained(p);
        var i :| RunAt(p, i, LongestRun(p));
        assert f[i..i + LongestRun(p)] == p[i..i + LongestRun(p)];
        assert RunAt(f, i, LongestRun(f));
      } else {
        TrailingRunIsMaximalSuffix(f);
        var t := TrailingRun(f);
        assert LongestRun(f) == t;
        assert f[|f| - t..|f| - t + t] == f[|f| - t..];
        assert RunAt(f, |f| - t, LongestRun(f));
      }
    }
  }

  /**
   * The cached metadata is determined by the history: currentStreak is the run of adherent
   * logs at the end, longestStreak the longest run ever, lastLoggedDate the last date logged.
   */
  lemma {:induction false} ReplayMatchesRuns(h: seq<Entry>)
    ensures Replay(h).currentStreak == TrailingRun(Flags(h))
    ensures Replay(h).longestStreak == LongestRun(Flags(h))
    ensures Replay(h).lastLoggedDate == if h == [] then None else Some(h[|h| - 1].day)
  {
    if h != [] {
      var p := h[..|h| - 1];
      ReplayMatchesRuns(p);
      assert Flags(h)[..|h| - 1] == Flags(p);
    }
  }

  /** Replaying any history keeps longestStreak at or above currentStreak. */
  lemma {:induction false} ReplayLongestCoversCurrent(h: seq<Entry>)
    ensures Replay(h).longestStreak >= Replay(h).currentStreak
  {
    if h != [] {
      ReplayLongestCoversCurrent(h[..|h| - 1]);
    }
  }

  /** Appending to the history never lowers longestStreak. */
  lemma {:induction false} ReplayLongestMonotone(h: seq<Entry>, more: seq<Entry>)
    ensures Replay(h + more).longestStreak >= Replay(h).longestStreak
  {
    if more != [] {
      var shorter := more[..|more| - 1];
      assert (h + more)[..|h + more| - 1] == h + shorter;
      ReplayLongestMonotone(h, shorter);
    } else {
      assert h + more == h;
    }
  }

  /** The sum of currentStreak over a list of habits (`reduce((sum, h) => sum + current, 0)`). */
  function TotalCurrentStreak(hs: seq<Habit>): nat
  {
    if hs == [] then 0 else hs[0].streakMetadata.currentStreak + TotalCurrentStreak(hs[1..])
  }

  lemma {:induction false} TotalCurrentStreakAppend(a: seq<Habit>, b: seq<Habit>)
    ensures TotalCurrentStreak(a + b) == TotalCurrentStreak(a) + TotalCurrentStreak(b)
  {
    if a == [] {
      assert a + b == b;
    } else {
      assert (a + b)[1..] == a[1..] + b;
      TotalCurrentStreakAppend(a[1..], b);
    }
  }

  /** The total does not depend on the order in which the habits are listed. */
  lemma {:induction false} TotalCurrentStreakPermutation(a: seq<Habit>, b: seq<Habit>)
    requires multiset(a) == multiset(b)
    ensures TotalCurrentStreak(a) == TotalCurrentStreak(b)
    decreases |a|
  {
    if a != [] {
      assert a[0] in multiset(b);
      var k :| 0 <= k < |b| && b[k] == a[0];
      var rest := b[..k] + b[k + 1..];
      assert b == b[..k] + [b[k]] + b[k + 1..];
      assert a == [a[0]] + a[1..];
      assert multiset(b) == multiset(b[..k]) + multiset{b[k]} + multiset(b[k + 1..]);
      assert multiset(a) == multiset{a[0]} + multiset(a[1..]);
      assert multiset(rest) == multiset(b[..k]) + multiset(b[k + 1..]);
      forall x ensures multiset(a[1..])[x] == multiset(rest)[x] {
        assert multiset(a)[x] == multiset{a[0]}[x] + multiset(a[1..])[x];
        assert multiset(b)[x] == multiset{a[0]}[x] + multiset(rest)[x];
      }
      assert multiset(a[1..]) == multiset(rest);
      TotalCurrentStreakPermutation(a[1..], rest);
      TotalCurrentStreakAppend(b[..k] + [b[k]], b[k + 1..]);
      TotalCurrentStreakAppend(b[..k], [b[k]]);
      TotalCurrentStreakAppend(b[..k], b[k + 1..]);
    }
  }

  /** Reversing the list keeps the total. */
  lemma TotalCurrentStreakReverse(hs: seq<Habit>)
    ensures TotalCurrentStreak(Reverse(hs)) == TotalCurrentStreak(hs)
  {
    ReverseMultiset(hs);
    TotalCurrentStreakPermutation(Reverse(hs), hs);
  }
}
