/**
 * The Farcaster frame endpoint (app/api/frame/route.ts): a button press is dispatched to one
 * of five handlers, which answer with the next frame to show.
 */
module Frame {
  import opened Types
  import opened Seqs
  import opened Streak
  import opened Logs
  import opened Store

  /** The part of `untrustedData` the endpoint reads. */
  datatype FrameData = FrameData(fid: nat, buttonIndex: int, inputText: string)

  datatype FrameAction = LogAction | ViewAction | AddAction | ShareAction | DefaultAction

  /** The frame the endpoint answers with, by the image type it names. */
  datatype FrameResponse =
    | InvalidFrameData
    | Onboarding
    | SelectHabit(names: seq<string>)
    | AlreadyLogged(habitName: string)
    | StreakUpdate(habitName: string, streak: nat)
    | HabitsOverview(habits: seq<Habit>, totalStreak: nat)
    | AddHabitPrompt
    | HabitCreated(habitName: string)
    | ShareCard(habitName: string, streak: nat)
    | Dashboard(habitCount: nat, totalStreak: nat)

  /** The description and goal a habit created from a frame gets. */
  function FrameDescription(name: string): string { "Stay consistent with " + name }
  const FrameGoal: string := "Daily practice"

  /** Buttons 1 to 4 select a handler; any other index shows the dashboard. */
  function ActionFor(buttonIndex: int): (a: FrameAction)
    ensures buttonIndex == 1 <==> a == LogAction
    ensures buttonIndex == 2 <==> a == ViewAction
    ensures buttonIndex == 3 <==> a == AddAction
    ensures buttonIndex == 4 <==> a == ShareAction
    ensures a == DefaultAction <==> !(1 <= buttonIndex <= 4)
  {
    if buttonIndex == 1 then LogAction
    else if buttonIndex == 2 then ViewAction
    else if buttonIndex == 3 then AddAction
    else if buttonIndex == 4 then ShareAction
    else DefaultAction
  }

  // ---------------------------------------------------------------------------
  // The user key: `fid.toString()`

  function Digit(d: nat): char
    requires d < 10
  {
    "0123456789"[d]
  }

  function DigitValue(c: char): int {
    c as int - '0' as int
  }

  /** The decimal representation of a fid, without leading zeros. */
  function FidKey(fid: nat): (r: string)
    ensures r != []
    ensures forall i :: 0 <= i < |r| ==> '0' <= r[i] <= '9'
    ensures |r| > 1 ==> r[0] != '0'
  {
    if fid < 10 then [Digit(fid)] else FidKey(fid / 10) + [Digit(fid % 10)]
  }

  /** The number a string of decimal digits denotes. */
  function DecimalValue(s: string): int
  {
    if s == [] then 0 else 10 * DecimalValue(s[..|s| - 1]) + DigitValue(s[|s| - 1])
  }

  /** Reading the key back gives the fid, so distinct fids never share a user row. */
  lemma {:induction false} FidKeyRoundTrip(fid: nat)
    ensures DecimalValue(FidKey(fid)) == fid
  {
    if fid >= 10 {
      FidKeyRoundTrip(fid / 10);
      var k := FidKey(fid);
      assert k[..|k| - 1] == FidKey(fid / 10);
    }
  }

  lemma FidKeyInjective(a: nat, b: nat)
    requires FidKey(a) == FidKey(b)
    ensures a == b
  {
    FidKeyRoundTrip(a);
    FidKeyRoundTrip(b);
  }

  // ---------------------------------------------------------------------------
  // Matching a typed habit name: `h.name.toLowerCase() === habitName.toLowerCase()`

  function LowerChar(c: char): char {
    if 'A' <= c <= 'Z' then (c as int + 32) as char else c
  }

  /** Lower-cases the ASCII letters of a string. */
  function LowerAscii(s: string): (r: string)
    ensures |r| == |s| && forall i :: 0 <= i < |s| ==> r[i] == LowerChar(s[i])
  {
    seq(|s|, i requires 0 <= i < |s| => LowerChar(s[i]))
  }

  /** Lower-casing twice is lower-casing once, so a name matches its own lower-cased form. */
  lemma LowerAsciiIdempotent(s: string)
    ensures LowerAscii(LowerAscii(s)) == LowerAscii(s)
  {
  }

  predicate NameMatches(h: Habit, typed: string) {
    LowerAscii(h.name) == LowerAscii(typed)
  }

  /** `habits.find(...)`: the first habit whose name matches, ignoring ASCII case. */
  function FindByName(hs: seq<Habit>, typed: string): (r: Option<nat>)
    ensures r.Some? ==> r.value < |hs| && NameMatches(hs[r.value], typed)
    ensures r.Some? ==> forall j :: 0 <= j < r.value ==> !NameMatches(hs[j], typed)
    ensures r.None? ==> forall j :: 0 <= j < |hs| ==> !NameMatches(hs[j], typed)
  {
    if hs == [] then None
    else if NameMatches(hs[0], typed) then Some(0)
    else match FindByName(hs[1..], typed)
      case None => None
      case Some(k) => Some(k + 1)
  }

  // ---------------------------------------------------------------------------
  // The read-only views

  /** The user's active habits, newest first (`orderBy: { createdAt: 'desc' }`). */
  function ActiveNewestFirst(created: seq<HabitId>, habits: map<HabitId, Habit>, uid: UserId): seq<Habit>
    requires AllStored(created, habits)
  {
    Records(NewestFirst(created, habits, uid), habits)
  }

  /** The user's active habits in creation order (the queries without an order). */
  function ActiveInOrder(created: seq<HabitId>, habits: map<HabitId, Habit>, uid: UserId): seq<Habit>
    requires AllStored(created, habits)
  {
    Records(ActiveOf(created, habits, uid), habits)
  }

  /** Button 2: every active habit, newest first, with the sum of their current streaks. */
  function ViewHabits(created: seq<HabitId>, habits: map<HabitId, Habit>, uid: UserId): (r: FrameResponse)
    requires AllStored(created, habits)
    ensures r.HabitsOverview?
  {
    var hs := ActiveNewestFirst(created, habits, uid);
    HabitsOverview(hs, TotalCurrentStreak(hs))
  }

  /** The fallback: the number of active habits and the sum of their current streaks. */
  function DefaultView(created: seq<HabitId>, habits: map<HabitId, Habit>, uid: UserId): (r: FrameResponse)
    requires AllStored(created, habits)
    ensures r.Dashboard?
  {
    var hs := ActiveInOrder(created, habits, uid);
    Dashboard(|hs|, TotalCurrentStreak(hs))
  }

  /** The overview and the dashboard report the same total and the same number of habits. */
  lemma OverviewAgreesWithDashboard(created: seq<HabitId>, habits: map<HabitId, Habit>, uid: UserId)
    requires AllStored(created, habits)
    ensures ViewHabits(created, habits, uid).totalStreak == DefaultView(created, habits, uid).totalStreak
    ensures |ViewHabits(created, habits, uid).habits| == DefaultView(created, habits, uid).habitCount
  {
    var a := ActiveOf(created, habits, uid);
    var hs := Records(a, habits);
    var newest := Records(Reverse(a), habits);
    assert newest == ActiveNewestFirst(created, habits, uid);
    forall i | 0 <= i < |newest| ensures newest[i] == Reverse(hs)[i] {
      assert newest[i] == habits[a[|a| - 1 - i]];
    }
    assert newest == Reverse(hs);
    TotalCurrentStreakReverse(hs);
  }

  /** `Math.max(...habits.map(h => currentStreak))` over a non-empty list. */
  function MaxCurrent(hs: seq<Habit>): (m: nat)
    requires hs != []
    ensures forall i :: 0 <= i < |hs| ==> hs[i].streakMetadata.currentStreak <= m
    ensures exists i :: 0 <= i < |hs| && hs[i].streakMetadata.currentStreak == m
  {
    if |hs| == 1 then hs[0].streakMetadata.currentStreak
    else
      var rest := MaxCurrent(hs[1..]);
      assert forall i :: 1 <= i < |hs| ==> hs[i] == hs[1..][i - 1];
      if hs[0].streakMetadata.currentStreak >= rest then hs[0].streakMetadata.currentStreak else rest
  }

  /** The first habit whose current streak equals `best`. */
  function FirstWithStreak(hs: seq<Habit>, best: nat): (r: Option<nat>)
    ensures r.Some? ==> r.value < |hs| && hs[r.value].streakMetadata.currentStreak == best
    ensures r.Some? ==> forall j :: 0 <= j < r.value ==> hs[j].streakMetadata.currentStreak != best
    ensures r.None? ==> forall j :: 0 <= j < |hs| ==> hs[j].streakMetadata.currentStreak != best
  {
    if hs == [] then None
    else if hs[0].streakMetadata.currentStreak == best then Some(0)
    else match FirstWithStreak(hs[1..], best)
      case None => None
      case Some(k) => Some(k + 1)
  }

  /** Button 4: the habit with the best current streak, or the dashboard when there is none. */
  function ShareView(created: seq<HabitId>, habits: map<HabitId, Habit>, uid: UserId): FrameResponse
    requires AllStored(created, habits)
  {
    var hs := ActiveInOrder(created, habits, uid);
    if hs == [] then DefaultView(created, habits, uid)
    else
      var best := MaxCurrent(hs);
      match FirstWithStreak(hs, best)
      case Some(k) => ShareCard(hs[k].name, best)
      case None => DefaultView(created, habits, uid)
  }

  /**
   * Sharing shows the first active habit, in creation order, whose current streak is the
   * largest of all the user's active habits; with no active habit it shows the dashboard.
   */
  lemma ShareViewSpec(created: seq<HabitId>, habits: map<HabitId, Habit>, uid: UserId)
    requires AllStored(created, habits)
    ensures var hs := ActiveInOrder(created, habits, uid);
      var r := ShareView(created, habits, uid);
      (hs == [] <==> r == DefaultView(created, habits, uid)) &&
      (hs != [] ==>
        exists k :: 0 <= k < |hs| &&
          r == ShareCard(hs[k].name, hs[k].streakMetadata.currentStreak) &&
          (forall j :: 0 <= j < |hs| ==> hs[j].streakMetadata.currentStreak <= hs[k].streakMetadata.currentStreak) &&
          (forall j :: 0 <= j < k ==> hs[j].streakMetadata.currentStreak < hs[k].streakMetadata.currentStreak))
  {
    var hs := ActiveInOrder(created, habits, uid);
    if hs != [] {
      var k := FirstBest(hs);
      assert ShareView(created, habits, uid) == ShareCard(hs[k].name, hs[k].streakMetadata.currentStreak);
    }
  }

  /** In a non-empty list, some habit has the largest current streak, and the first such is found. */
  lemma FirstBest(hs: seq<Habit>) returns (k: nat)
    requires hs != []
    ensures FirstWithStreak(hs, MaxCurrent(hs)) == Some(k)
    ensures k < |hs| && hs[k].streakMetadata.currentStreak == MaxCurrent(hs)
    ensures forall j :: 0 <= j < k ==> hs[j].streakMetadata.currentStreak < hs[k].streakMetadata.currentStreak
  {
    var best := MaxCurrent(hs);
    var i :| 0 <= i < |hs| && hs[i].streakMetadata.currentStreak == best;
    k := FirstWithStreak(hs, best).value;
  }

  // ---------------------------------------------------------------------------
  // The handlers that write

  /**
   * What button 1 does, from the creation order, habits and logs before it to those after it:
   * with no active habit, the onboarding frame; with no typed name or no habit of that name, the
   * list of names to pick from; a habit already logged today is refused. These three write
   * nothing. Otherwise an adherent log for today is appended and the streak rule applied to the
   * matched habit. No badges are evaluated on this path.
   */
  ghost predicate FrameLogged(created: seq<HabitId>, habits: map<HabitId, Habit>, logs: seq<StreakLog>,
                              uid: UserId, typed: string, today: Day, resp: FrameResponse,
                              created': seq<HabitId>, habits': map<HabitId, Habit>, logs': seq<StreakLog>)
    requires AllStored(created, habits)
  {
    var hs := ActiveNewestFirst(created, habits, uid);
    var found := FindByName(hs, typed);
    var same := created' == created && habits' == habits && logs' == logs;
    if hs == [] then resp == Onboarding && same
    else if typed == "" || found.None? then resp == SelectHabit(Names(hs)) && same
    else
      var h := hs[found.value];
      if FindLog(logs, h.id, today).Some? then resp == AlreadyLogged(h.name) && same
      else
        var m := NextMeta(h.streakMetadata, true, today);
        resp == StreakUpdate(h.name, h.streakMetadata.currentStreak + 1) &&
        habits' == habits[h.id := h.(streakMetadata := m)] &&
        logs' == logs + [StreakLog(h.id, today, true, None, m.currentStreak)] &&
        created' == created
  }

  /** Button 1 of the frame. */
  method LogFromFrame(s: Store, uid: UserId, typed: string, today: Day) returns (resp: FrameResponse)
    requires s.Valid()
    modifies s
    ensures s.Valid()
    ensures FrameLogged(old(s.created), old(s.habits), old(s.logs), uid, typed, today, resp, s.created, s.habits, s.logs)
    ensures s.users == old(s.users) && s.badges == old(s.badges)
  {
    var hs := ActiveNewestFirst(s.created, s.habits, uid);
    if hs == [] {
      return Onboarding;
    }
    var found := FindByName(hs, typed);
    if typed == "" || found.None? {
      return SelectHabit(Names(hs));
    }
    var h := hs[found.value];
    assert h == s.habits[NewestFirst(s.created, s.habits, uid)[found.value]];
    if FindLog(s.logs, h.id, today).Some? {
      return AlreadyLogged(h.name);
    }
    var log := s.RecordLog(h.id, today, true, None);
    resp := StreakUpdate(h.name, log.streakLengthAtLog);
  }

  /**
   * What button 3 does: with a typed name, a productivity habit owned by the user is created with
   * the frame's description and goal, and its id is appended to the user's activeHabits; with no
   * name, a prompt for one and no write.
   */
  ghost predicate FrameAdded(created: seq<HabitId>, habits: map<HabitId, Habit>, users: map<UserId, User>,
                             logs: seq<StreakLog>, uid: UserId, typed: string, newId: HabitId, today: Day,
                             resp: FrameResponse, created': seq<HabitId>, habits': map<HabitId, Habit>,
                             users': map<UserId, User>, logs': seq<StreakLog>)
    requires uid in users
  {
    if typed == "" then
      resp == AddHabitPrompt && created' == created && habits' == habits && users' == users && logs' == logs
    else
      var h := NewHabit(newId, uid, typed, FrameDescription(typed), FrameGoal, Productivity, DefaultIcon, today);
      resp == HabitCreated(typed) &&
      habits' == habits[newId := h] &&
      created' == created + [newId] &&
      users' == users[uid := users[uid].(activeHabits := users[uid].activeHabits + [newId])] &&
      logs' == logs
  }

  /** Button 3 of the frame. */
  method AddFromFrame(s: Store, uid: UserId, typed: string, newId: HabitId, today: Day) returns (resp: FrameResponse)
    requires s.Valid() && uid != "" && uid in s.users && newId !in s.habits
    modifies s
    ensures s.Valid()
    ensures FrameAdded(old(s.created), old(s.habits), old(s.users), old(s.logs), uid, typed, newId, today,
                       resp, s.created, s.habits, s.users, s.logs)
    ensures s.badges == old(s.badges)
  {
    if typed == "" {
      return AddHabitPrompt;
    }
    var res := s.CreateHabit(uid, typed, FrameDescription(typed), FrameGoal, Some(Productivity), DefaultIcon, newId, today);
    resp := HabitCreated(res.value.name);
  }

  /**
   * The endpoint: without frame data, a 400; otherwise the user of the fid is found or
   * created, and the button index picks the handler.
   */
  method HandleFrame(s: Store, data: Option<FrameData>, today: Day, newId: HabitId) returns (resp: FrameResponse)
    requires s.Valid() && newId !in s.habits
    modifies s
    ensures s.Valid()
    ensures data.None? ==> resp == InvalidFrameData && unchanged(s)
    ensures data.Some? ==>
      var uid := FidKey(data.value.fid);
      var action := ActionFor(data.value.buttonIndex);
      var users0 := if uid in old(s.users) then old(s.users) else old(s.users)[uid := User(uid, None, None, [], [])];
      uid in s.users && uid in users0 && s.badges == old(s.badges) &&
      (action != AddAction ==> s.users == users0) &&
      (action == LogAction ==>
        FrameLogged(old(s.created), old(s.habits), old(s.logs), uid, data.value.inputText, today, resp,
                    s.created, s.habits, s.logs)) &&
      (action == AddAction ==>
        FrameAdded(old(s.created), old(s.habits), users0, old(s.logs), uid, data.value.inputText, newId, today, resp,
                   s.created, s.habits, s.users, s.logs)) &&
      (action == ViewAction ==> resp == ViewHabits(old(s.created), old(s.habits), uid)) &&
      (action == ShareAction ==> resp == ShareView(old(s.created), old(s.habits), uid)) &&
      (action == DefaultAction ==> resp == DefaultView(old(s.created), old(s.habits), uid)) &&
      (action != LogAction && action != AddAction ==>
        s.habits == old(s.habits) && s.logs == old(s.logs) && s.created == old(s.created))
  {
    if data.None? {
      return InvalidFrameData;
    }
    var uid := FidKey(data.value.fid);
    var _ := s.FindOrCreateUser(uid);
    match ActionFor(data.value.buttonIndex) {
      case LogAction =>
        resp := LogFromFrame(s, uid, data.value.inputText, today);
      case ViewAction =>
        resp := ViewHabits(s.created, s.habits, uid);
      case AddAction =>
        resp := AddFromFrame(s, uid, data.value.inputText, newId, today);
      case ShareAction =>
        resp := ShareView(s.created, s.habits, uid);
      case DefaultAction =>
        resp := DefaultView(s.created, s.habits, uid);
    }
  }
}
