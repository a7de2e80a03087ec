/** What a challenge shows its group: the results leaderboard and the
    status badge of its card. */
module ChallengeView {
  import opened Wrappers
  import opened AppTypes
  import opened Dates
  import opened Sorting
  import GroupState
  import opened Arith

  /** The number of tasks whose completers include the user. */
  function CompletedCount(tasks: seq<DayTask>, userId: UserId): (n: nat)
    ensures n <= |tasks|
  {
    if tasks == [] then 0
    else (if userId in CompletedBy(tasks[0]) then 1 else 0) + CompletedCount(tasks[1..], userId)
  }

  lemma {:induction false} CompletedCountAppend(a: seq<DayTask>, b: seq<DayTask>, userId: UserId)
    ensures CompletedCount(a + b, userId) == CompletedCount(a, userId) + CompletedCount(b, userId)
    decreases |a|
  {
    if a == [] {
      assert a + b == b;
    } else {
      assert (a + b)[1..] == a[1..] + b;
      CompletedCountAppend(a[1..], b, userId);
    }
  }

  /** Ticking the task of one day (day numbers being distinct, as generated)
      moves the current user's count by exactly one and leaves everybody
      else's count unchanged. */
  lemma {:induction false} ToggleMovesCountByOne(tasks: seq<DayTask>, k: int, user: UserId, other: UserId)
    requires 0 <= k < |tasks|
    requires forall i, j :: 0 <= i < j < |tasks| ==> tasks[i].dayNumber != tasks[j].dayNumber
    requires other != user
    ensures var after := GroupState.ToggleInTasks(tasks, tasks[k].dayNumber, user);
      CompletedCount(after, user) == CompletedCount(tasks, user) + (if user in CompletedBy(tasks[k]) then -1 else 1) &&
      CompletedCount(after, other) == CompletedCount(tasks, other)
    decreases |tasks|
  {
    var day := tasks[k].dayNumber;
    var after := GroupState.ToggleInTasks(tasks, day, user);
    var rest := tasks[1..];
    assert GroupState.ToggleInTasks(tasks, day, user)[1..] == GroupState.ToggleInTasks(rest, day, user);
    if k == 0 {
      assert forall i :: 0 <= i < |rest| ==> rest[i].dayNumber != day by {
        forall i | 0 <= i < |rest| ensures rest[i].dayNumber != day {
          assert rest[i] == tasks[i + 1];
        }
      }
      assert GroupState.ToggleInTasks(rest, day, user) == rest;
    } else {
      assert rest[k - 1] == tasks[k];
      assert tasks[0].dayNumber != day;
      ToggleMovesCountByOne(rest, k - 1, user, other);
    }
  }

  /** One row of the results modal. */
  datatype MemberStat = MemberStat(member: GroupMember, completedCount: nat, total: nat, progress: int)

  function CountKey(s: MemberStat): int {
    s.completedCount
  }

  /** `group.members.map(...)`, before sorting. */
  function Stats(members: seq<GroupMember>, tasks: seq<DayTask>): seq<MemberStat> {
    seq(|members|, i requires 0 <= i < |members| =>
      var n := CompletedCount(tasks, members[i].userId);
      MemberStat(members[i], n, |tasks|, RoundPercent(n, |tasks|)))
  }

  /** A row describes one of the members and that member's tasks. */
  predicate StatFor(s: MemberStat, members: seq<GroupMember>, tasks: seq<DayTask>) {
    s.member in members && s.completedCount == CompletedCount(tasks, s.member.userId) &&
    s.total == |tasks| && s.progress == RoundPercent(s.completedCount, |tasks|) &&
    0 <= s.progress <= 100
  }

  lemma StatsAreFor(members: seq<GroupMember>, tasks: seq<DayTask>)
    ensures forall s :: s in Stats(members, tasks) ==> StatFor(s, members, tasks)
  {
    var stats := Stats(members, tasks);
    forall i | 0 <= i < |stats| ensures StatFor(stats[i], members, tasks) {
      var n := CompletedCount(tasks, members[i].userId);
      if |tasks| > 0 {
        RoundPercentBounds(n, |tasks|);
      }
    }
  }

  /** `memberStats`: one row per member with the member's number of
      completed tasks and its rounded share, ordered non-increasingly by the
      count, members with equal counts staying in member order. */
  function Leaderboard(members: seq<GroupMember>, tasks: seq<DayTask>): (r: seq<MemberStat>)
    ensures |r| == |members| && multiset(r) == multiset(Stats(members, tasks))
    ensures SortedDesc(r, CountKey)
    ensures forall s :: s in r ==> StatFor(s, members, tasks)
    ensures forall v :: WithKey(r, CountKey, v) == WithKey(Stats(members, tasks), CountKey, v)
  {
    var stats := Stats(members, tasks);
    var r := SortDesc(stats, CountKey);
    forall v ensures WithKey(r, CountKey, v) == WithKey(stats, CountKey, v) {
      SortStable(stats, CountKey, v);
    }
    StatsAreFor(members, tasks);
    assert forall s :: s in r ==> s in multiset(stats);
    r
  }

  // ------------------------------------------------------------ card status

  datatype CardStatus = Upcoming(daysToStart: int) | Finished | Running(dayIndex: int)

  /** `renderChallengeCard`'s badge: Upcoming before the start day (with the
      number of days to go), Finished after the last day, otherwise the
      current day of the challenge. */
  function CardStatusOf(c: Challenge, now: Instant): (s: CardStatus)
    ensures s.Upcoming? <==> DayNumber(c.startDate, now) < 1
    ensures s.Upcoming? ==> s.daysToStart >= 1 && DayNumber(c.startDate, now) == 1 - s.daysToStart
    ensures s.Finished? <==> 1 <= DayNumber(c.startDate, now) && DayNumber(c.startDate, now) > c.durationDays
    ensures s.Running? <==> 1 <= DayNumber(c.startDate, now) <= c.durationDays
    ensures s.Running? ==> s.dayIndex == DayNumber(c.startDate, now) && IsTaskForToday(c.startDate, s.dayIndex, now)
  {
    var today := Midnight(now);
    var start := Midnight(c.startDate);
    var end := TaskDate(c.startDate, c.durationDays);
    var diff := today - start;
    var currentDayIndex := diff / MsPerDay + 1;
    DayNumberIsDayDifference(c.startDate, now);
    DayNumberAgreesWithTaskDate(c.startDate, currentDayIndex, now);
    MidnightOfDay(DayOf(now));
    MidnightOfDay(DayOf(c.startDate));
    MidnightOfDay(DayOf(c.startDate) + c.durationDays - 1);
    if today < start then Upcoming((start - today + MsPerDay - 1) / MsPerDay)
    else if today > end then Finished
    else Running(currentDayIndex)
  }
}
