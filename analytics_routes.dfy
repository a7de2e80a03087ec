/** The analytics routes: a group's statistics and leaderboard, a page of
    its activity log, and a challenge's progress. */
module AnalyticsRoutes {
  import opened Wrappers
  import opened Dates
  import opened Sorting
  import opened Arith
  import opened Store
  import ChallengeRoutes

  // ------------------------------------------------------------ group stats

  /** `task.completions.some(c => c.memberId === member.id)`. */
  predicate DoneBy(completions: seq<CompletionRow>, taskId: Id, memberId: Id) {
    exists j :: 0 <= j < |completions| && completions[j].taskId == taskId && completions[j].memberId == memberId
  }

  /** How many of the tasks the member has completed. */
  function DoneCount(completions: seq<CompletionRow>, tasks: seq<TaskRow>, memberId: Id): (n: nat)
    ensures n <= |tasks|
  {
    if tasks == [] then 0
    else
      var last := tasks[|tasks| - 1];
      DoneCount(completions, tasks[..|tasks| - 1], memberId) + (if DoneBy(completions, last.id, memberId) then 1 else 0)
  }

  /** A member who completed every task, or none, is counted so. */
  lemma {:induction false} DoneCountExtremes(completions: seq<CompletionRow>, tasks: seq<TaskRow>, memberId: Id)
    ensures (forall k :: 0 <= k < |tasks| ==> DoneBy(completions, tasks[k].id, memberId)) ==>
      DoneCount(completions, tasks, memberId) == |tasks|
    ensures (forall k :: 0 <= k < |tasks| ==> !DoneBy(completions, tasks[k].id, memberId)) ==>
      DoneCount(completions, tasks, memberId) == 0
    decreases |tasks|
  {
    if tasks != [] {
      var init := tasks[..|tasks| - 1];
      assert forall k :: 0 <= k < |init| ==> init[k] == tasks[k];
      DoneCountExtremes(completions, init, memberId);
    }
  }

  lemma {:induction false} DoneCountAppend(completions: seq<CompletionRow>, a: seq<TaskRow>, b: seq<TaskRow>, memberId: Id)
    ensures DoneCount(completions, a + b, memberId) == DoneCount(completions, a, memberId) + DoneCount(completions, b, memberId)
    decreases |b|
  {
    if b == [] {
      assert a + b == a;
    } else {
      var b' := b[..|b| - 1];
      assert (a + b)[..|a + b| - 1] == a + b';
      assert (a + b)[|a + b| - 1] == b[|b| - 1];
      DoneCountAppend(completions, a, b', memberId);
    }
  }

  function ChallengeIds(challenges: seq<ChallengeRow>): set<Id> {
    set c | c in challenges :: c.id
  }

  /** The tasks of the challenges, challenge by challenge: what the two inner
      `forEach` loops walk through. */
  function ChallengeTasks(tasks: seq<TaskRow>, challenges: seq<ChallengeRow>): (r: seq<TaskRow>)
    ensures forall k :: k in r <==> k in tasks && k.challengeId in ChallengeIds(challenges)
  {
    if challenges == [] then []
    else
      var init := challenges[..|challenges| - 1];
      var last := challenges[|challenges| - 1];
      assert challenges == init + [last];
      ChallengeTasks(tasks, init) + TasksOf(tasks, last.id)
  }

  /** The count of completions over all members, one per (member, task). */
  function SumDone(completions: seq<CompletionRow>, tasks: seq<TaskRow>, members: seq<MemberRow>): nat {
    if members == [] then 0
    else SumDone(completions, tasks, members[..|members| - 1]) + DoneCount(completions, tasks, members[|members| - 1].id)
  }

  /** No member completes more tasks than there are. */
  lemma {:induction false} SumDoneBounded(completions: seq<CompletionRow>, tasks: seq<TaskRow>, members: seq<MemberRow>)
    ensures SumDone(completions, tasks, members) <= |tasks| * |members|
    decreases |members|
  {
    if members != [] {
      SumDoneBounded(completions, tasks, members[..|members| - 1]);
      assert |tasks| * (|members| - 1) + |tasks| == |tasks| * |members|;
    }
  }

  datatype MemberStat = MemberStat(
    id: Id, displayName: string, avatar: Option<string>, tasksCompleted: nat, strikes: int, penaltiesPaid: int,
    completionRate: int)

  function TasksCompleted(s: MemberStat): int {
    s.tasksCompleted
  }

  /** A leaderboard row: the member's completed tasks, and their share of
      seven tasks per challenge, the routes' stand-in for a week. */
  function MemberEntry(completions: seq<CompletionRow>, tasks: seq<TaskRow>, challengeCount: nat, m: MemberRow): (s: MemberStat)
    ensures s.id == m.id && s.tasksCompleted <= |tasks|
    ensures challengeCount == 0 ==> s.completionRate == 0
  {
    var done := DoneCount(completions, tasks, m.id);
    MemberStat(m.id, m.displayName, m.avatar, done, m.strikes, m.penaltiesPaid, RoundPercent(done, challengeCount * 7))
  }

  function Entries(completions: seq<CompletionRow>, tasks: seq<TaskRow>, challengeCount: nat, members: seq<MemberRow>): (r: seq<MemberStat>)
    ensures |r| == |members|
    ensures forall k :: 0 <= k < |r| ==> r[k] == MemberEntry(completions, tasks, challengeCount, members[k])
    ensures forall s :: s in r ==> s.tasksCompleted <= |tasks|
  {
    seq(|members|, k requires 0 <= k < |members| => MemberEntry(completions, tasks, challengeCount, members[k]))
  }

  /** The member's rate stays within 100 as long as no challenge has more
      than seven tasks. */
  lemma MemberRateBounded(completions: seq<CompletionRow>, tasks: seq<TaskRow>, challengeCount: nat, m: MemberRow)
    requires |tasks| <= 7 * challengeCount
    ensures 0 <= MemberEntry(completions, tasks, challengeCount, m).completionRate <= 100
  {
    if challengeCount > 0 {
      RoundPercentBounds(DoneCount(completions, tasks, m.id), challengeCount * 7);
    }
  }

  /** Beyond that it does not: a member who completed all eight tasks of
      the group's one challenge is reported at 114 percent. */
  lemma MemberRateCanExceed100()
    ensures var tasks := seq(8, (k: int) requires 0 <= k < 8 => TaskRow([(k + 48) as char], "c", k + 1, "", None));
      var completions := seq(8, (k: int) requires 0 <= k < 8 => CompletionRow([(k + 48) as char], [(k + 48) as char], "c", "m", "u", None, None, 0));
      var m := MemberRow("m", "g", "u", "", None, "member", 0, 0, 0);
      MemberEntry(completions, tasks, 1, m).completionRate == 114
  {
    var tasks := seq(8, (k: int) requires 0 <= k < 8 => TaskRow([(k + 48) as char], "c", k + 1, "", None));
    var completions := seq(8, (k: int) requires 0 <= k < 8 => CompletionRow([(k + 48) as char], [(k + 48) as char], "c", "m", "u", None, None, 0));
    forall k | 0 <= k < 8 ensures DoneBy(completions, tasks[k].id, "m") {
      assert completions[k].taskId == tasks[k].id;
    }
    DoneCountExtremes(completions, tasks, "m");
  }

  /** The innermost loop, for one challenge: every task counts towards the
      total, those the member completed towards the member's count. */
  method CountTasks(completions: seq<CompletionRow>, tasks: seq<TaskRow>, memberId: Id) returns (seen: nat, done: nat)
    ensures seen == |tasks| && done == DoneCount(completions, tasks, memberId)
  {
    seen, done := 0, 0;
    var j := 0;
    while j < |tasks|
      invariant 0 <= j <= |tasks|
      invariant seen == j && done == DoneCount(completions, tasks[..j], memberId)
    {
      assert tasks[..j + 1][..j] == tasks[..j];
      seen := seen + 1;
      if DoneBy(completions, tasks[j].id, memberId) {
        done := done + 1;
      }
      j := j + 1;
    }
    assert tasks[..j] == tasks;
  }

  lemma ChallengeTasksStep(tasks: seq<TaskRow>, challenges: seq<ChallengeRow>, i: int)
    requires 0 <= i < |challenges|
    ensures ChallengeTasks(tasks, challenges[..i + 1]) == ChallengeTasks(tasks, challenges[..i]) + TasksOf(tasks, challenges[i].id)
  {
    assert challenges[..i + 1][..i] == challenges[..i];
  }

  /** The loop over the group's challenges for one member. */
  method CountChallenges(t: Tables, challenges: seq<ChallengeRow>, memberId: Id) returns (seen: nat, done: nat)
    ensures seen == |ChallengeTasks(t.tasks, challenges)|
    ensures done == DoneCount(t.completions, ChallengeTasks(t.tasks, challenges), memberId)
  {
    seen, done := 0, 0;
    var i := 0;
    while i < |challenges|
      invariant 0 <= i <= |challenges|
      invariant seen == |ChallengeTasks(t.tasks, challenges[..i])|
      invariant done == DoneCount(t.completions, ChallengeTasks(t.tasks, challenges[..i]), memberId)
    {
      var these := TasksOf(t.tasks, challenges[i].id);
      ChallengeTasksStep(t.tasks, challenges, i);
      var s, d := CountTasks(t.completions, these, memberId);
      DoneCountAppend(t.completions, ChallengeTasks(t.tasks, challenges[..i]), these, memberId);
      seen, done := seen + s, done + d;
      i := i + 1;
    }
    assert challenges[..i] == challenges;
  }

  /** The loop over the group's members: the running totals and one
      leaderboard row per member. */
  method CountMembers(t: Tables, challenges: seq<ChallengeRow>, members: seq<MemberRow>)
    returns (totalTasks: nat, completedTasks: nat, stats: seq<MemberStat>)
    ensures totalTasks == |ChallengeTasks(t.tasks, challenges)| * |members|
    ensures completedTasks == SumDone(t.completions, ChallengeTasks(t.tasks, challenges), members)
    ensures stats == Entries(t.completions, ChallengeTasks(t.tasks, challenges), |challenges|, members)
  {
    ghost var tasks := ChallengeTasks(t.tasks, challenges);
    totalTasks, completedTasks := 0, 0;
    stats := [];
    var i := 0;
    while i < |members|
      invariant 0 <= i <= |members|
      invariant totalTasks == |tasks| * i
      invariant completedTasks == SumDone(t.completions, tasks, members[..i])
      invariant |stats| == i
      invariant forall k :: 0 <= k < i ==> stats[k] == MemberEntry(t.completions, tasks, |challenges|, members[k])
    {
      assert members[..i + 1][..i] == members[..i];
      var seen, done := CountChallenges(t, challenges, members[i].id);
      assert |tasks| * (i + 1) == |tasks| * i + |tasks|;
      totalTasks := totalTasks + seen;
      completedTasks := completedTasks + done;
      var m := members[i];
      var row := MemberStat(m.id, m.displayName, m.avatar, done, m.strikes, m.penaltiesPaid,
        RoundPercent(done, |challenges| * 7));
      assert row == MemberEntry(t.completions, tasks, |challenges|, m);
      assert SumDone(t.completions, tasks, members[..i + 1]) == SumDone(t.completions, tasks, members[..i]) + done;
      stats := stats + [row];
      i := i + 1;
    }
    assert members[..i] == members;
  }

  datatype GroupStatsBody = GroupStatsBody(
    totalMembers: nat, totalChallenges: nat, activeChallenges: nat, totalTasks: int, completedTasks: nat,
    completionRate: int, leaderboard: seq<MemberStat>)

  function ActiveOf(challenges: seq<ChallengeRow>): seq<ChallengeRow> {
    Where(challenges, (c: ChallengeRow) => c.status == "active")
  }

  /** GET /analytics/group/:groupId. The per-member loop adds every task of
      the group once per member to `totalTasks`, which the report divides by
      the number of members again; the overall rate is taken over all
      (member, task) pairs. */
  method GroupStats(t: Tables, callerId: Id, groupId: Id) returns (r: Reply<GroupStatsBody>)
    ensures !IsMemberOf(t.members, groupId, callerId) <==> r == Fail(403)
    ensures (IsMemberOf(t.members, groupId, callerId) && FindBy(t.groups, GroupKey, groupId).None?) <==> r == Fail(404)
    ensures r.Fail? ==> r.status in {403, 404}
    ensures r.Ok? ==> (
      var members := MembersOf(t.members, groupId);
      var challenges := ChallengesOf(t.challenges, groupId);
      var tasks := ChallengeTasks(t.tasks, challenges);
      var entries := Entries(t.completions, tasks, |challenges|, members);
      r.status == 200 && FindBy(t.groups, GroupKey, groupId).Some? &&
      r.body.totalMembers == |members| >= 1 && r.body.totalChallenges == |challenges| &&
      r.body.activeChallenges == |ActiveOf(challenges)| &&
      r.body.totalTasks == |tasks| && r.body.completedTasks == SumDone(t.completions, tasks, members) &&
      r.body.completionRate == RoundPercent(r.body.completedTasks, |tasks| * |members|) &&
      0 <= r.body.completionRate <= 100 && (|tasks| == 0 ==> r.body.completionRate == 0) &&
      r.body.leaderboard == SortDesc(entries, TasksCompleted) &&
      SortedDesc(r.body.leaderboard, TasksCompleted) && multiset(r.body.leaderboard) == multiset(entries) &&
      (forall s :: s in r.body.leaderboard ==> s in entries && s.tasksCompleted <= |tasks|))
  {
    var membership := Membership(t.members, groupId, callerId);
    if membership.None? {
      return Fail(403);
    }
    if FindBy(t.groups, GroupKey, groupId).None? {
      return Fail(404);
    }
    var members := MembersOf(t.members, groupId);
    var challenges := ChallengesOf(t.challenges, groupId);
    assert membership.value in members;
    ghost var tasks := ChallengeTasks(t.tasks, challenges);
    var totalTasks, completedTasks, stats := CountMembers(t, challenges, members);
    var leaderboard := SortDesc(stats, TasksCompleted);
    assert forall s :: s in leaderboard ==> s in multiset(stats);
    DivModUnique(totalTasks, |members|, |tasks|, 0);
    var perMember := totalTasks / |members|;
    SumDoneBounded(t.completions, tasks, members);
    if totalTasks > 0 {
      RoundPercentBounds(completedTasks, totalTasks);
    }
    var stat := GroupStatsBody(|members|, |challenges|, |ActiveOf(challenges)|, perMember, completedTasks,
      RoundPercent(completedTasks, totalTasks), leaderboard);
    return Ok(200, stat);
  }

  // ----------------------------------------------------------- activity log

  function LogCreatedAt(l: LogRow): int {
    l.createdAt
  }

  function Min(a: int, b: int): int {
    if a <= b then a else b
  }

  /** `skip: offset, take: limit`. */
  function Window<T>(s: seq<T>, offset: nat, limit: nat): (r: seq<T>)
    ensures |r| == Min(limit, |s| - Min(offset, |s|))
    ensures forall i :: 0 <= i < |r| ==> r[i] == s[offset + i]
  {
    s[Min(offset, |s|)..Min(offset + limit, |s|)]
  }

  /** Consecutive pages fit together: the page after a page starts where the
      first left off. */
  lemma WindowsConcat<T>(s: seq<T>, offset: nat, a: nat, b: nat)
    ensures Window(s, offset, a) + Window(s, offset + a, b) == Window(s, offset, a + b)
  {
  }

  /** A page at offset 0 as long as the log is the whole log. */
  lemma WindowAll<T>(s: seq<T>)
    ensures Window(s, 0, |s|) == s
  {
  }

  /** A page of a list sorted newest first is itself sorted, and holds only
      entries of the list. */
  lemma WindowOfSorted<T>(s: seq<T>, key: T -> int, offset: nat, limit: nat)
    requires SortedDesc(s, key)
    ensures SortedDesc(Window(s, offset, limit), key)
    ensures forall x :: x in Window(s, offset, limit) ==> x in s
  {
    var w := Window(s, offset, limit);
    forall i, j | 0 <= i < j < |w| ensures key(w[i]) >= key(w[j]) {
      assert w[i] == s[offset + i] && w[j] == s[offset + j];
    }
  }

  datatype ActivityBody = ActivityBody(activities: seq<LogRow>, limit: nat, offset: nat, total: nat)

  function GroupLogs(logs: seq<LogRow>, groupId: Id): (r: seq<LogRow>)
    ensures forall l :: l in r <==> l in logs && l.groupId == groupId
  {
    Where(logs, (l: LogRow) => l.groupId == groupId)
  }

  /** GET /analytics/group/:groupId/activity: the group's log newest first,
      `offset` entries skipped and at most `limit` returned, and the size of
      the whole log. An absent `limit` is 50 and an absent `offset` is 0. */
  function ActivityPage(t: Tables, callerId: Id, groupId: Id, limit: Option<nat>, offset: Option<nat>): (r: Reply<ActivityBody>)
    ensures !IsMemberOf(t.members, groupId, callerId) <==> r == Fail(403)
    ensures r.Ok? ==> (
      var take, skip := limit.GetOr(50), offset.GetOr(0);
      var all := SortDesc(GroupLogs(t.logs, groupId), LogCreatedAt);
      r.status == 200 && r.body.total == |GroupLogs(t.logs, groupId)| &&
      r.body.limit == take && r.body.offset == skip &&
      r.body.activities == Window(all, skip, take) && |r.body.activities| <= take &&
      SortedDesc(r.body.activities, LogCreatedAt) &&
      (forall l :: l in r.body.activities ==> l in t.logs && l.groupId == groupId))
    ensures r.Ok? && limit.None? && offset.None? ==>
      r.body.activities == SortDesc(GroupLogs(t.logs, groupId), LogCreatedAt)[..Min(50, |GroupLogs(t.logs, groupId)|)]
  {
    if !IsMemberOf(t.members, groupId, callerId) then Fail(403)
    else
      var take, skip := limit.GetOr(50), offset.GetOr(0);
      var mine := GroupLogs(t.logs, groupId);
      var all := SortDesc(mine, LogCreatedAt);
      var page := Window(all, skip, take);
      WindowOfSorted(all, LogCreatedAt, skip, take);
      assert forall l :: l in all ==> l in multiset(mine);
      Ok(200, ActivityBody(page, take, skip, |mine|))
  }

  // ------------------------------------------------------ challenge progress

  datatype TaskProgress = TaskProgress(
    dayNumber: int, title: string, completions: seq<(Id, Instant)>, completionCount: nat, completedBy: seq<Id>)

  /** One entry of `taskProgress`; completers are given by member id. */
  function ProgressOf(completions: seq<CompletionRow>, task: TaskRow): (p: TaskProgress)
    ensures p.dayNumber == task.dayNumber && p.title == task.title
    ensures p.completionCount == |CompletionsOf(completions, task.id)| == |p.completions| == |p.completedBy|
    ensures forall i :: 0 <= i < |p.completedBy| ==> p.completions[i].0 == p.completedBy[i]
  {
    var cs := CompletionsOf(completions, task.id);
    TaskProgress(task.dayNumber, task.title,
      seq(|cs|, i requires 0 <= i < |cs| => (cs[i].memberId, cs[i].completedAt)), |cs|,
      seq(|cs|, i requires 0 <= i < |cs| => cs[i].memberId))
  }

  /** `tasks.reduce((sum, task) => sum + task.completions.length, 0)`. */
  function TotalCompleted(completions: seq<CompletionRow>, tasks: seq<TaskRow>): nat {
    if tasks == [] then 0
    else TotalCompleted(completions, tasks[..|tasks| - 1]) + |CompletionsOf(completions, tasks[|tasks| - 1].id)|
  }

  datatype ProgressBody = ProgressBody(
    challenge: ChallengeRow, completedTasks: nat, totalPossible: nat, percentage: int, tasks: seq<TaskProgress>)

  /** GET /analytics/challenge/:challengeId/progress as it is written: the
      challenge is loaded with its group's own fields only (the relation
      include names no members), so reading the group's member count throws
      once the 404 and 403 checks have passed, and the catch answers 500. */
  function ChallengeProgressAsWritten(t: Tables, callerId: Id, challengeId: Id): (r: Reply<ProgressBody>)
    ensures r.Fail?
    ensures var g := ChallengeRoutes.ChallengeGate(t, callerId, challengeId);
      (g.Fail? ==> r == Fail(g.status)) && (g.Ok? ==> r == Fail(500))
  {
    match ChallengeRoutes.ChallengeGate(t, callerId, challengeId)
    case Fail(s) => Fail(s)
    case Ok(_, _) => Fail(500)
  }

  /** In a consistent store a member of the challenge's group gets the
      progress from the corrected route, and 500 from the route as written. */
  lemma AsWrittenProgressFailsMembers(t: Tables, callerId: Id, c: ChallengeRow, m: MemberRow)
    requires Consistent(t) && c in t.challenges && m in t.members && m.groupId == c.groupId && m.userId == callerId
    ensures ChallengeProgress(t, callerId, c.id).Ok? && ChallengeProgress(t, callerId, c.id).status == 200
    ensures ChallengeProgressAsWritten(t, callerId, c.id) == Fail(500)
  {
    var i :| 0 <= i < |t.challenges| && t.challenges[i] == c;
    var j :| 0 <= j < |t.members| && t.members[j] == m;
    FindUniqueBy(t.members, MembershipKey, j);
    assert IsMemberOf(t.members, c.groupId, callerId);
    ChallengeRoutes.ChallengeGateIff(t, callerId, i);
  }

  /** GET /analytics/challenge/:challengeId/progress, corrected to count the
      group's members: the same 404 and 403 checks as the challenge routes,
      then one entry per task, the completions summed over the tasks and
      their share of one completion per task and member. */
  function ChallengeProgress(t: Tables, callerId: Id, challengeId: Id): (r: Reply<ProgressBody>)
    ensures var g := ChallengeRoutes.ChallengeGate(t, callerId, challengeId);
      (r.Fail? <==> g.Fail?) && (r.Fail? ==> r == Fail(g.status))
    ensures r.Ok? ==> (
      var c := r.body.challenge;
      var tasks := TasksOf(t.tasks, c.id);
      var members := MembersOf(t.members, c.groupId);
      r.status == 200 && c in t.challenges && c.id == challengeId && IsMemberOf(t.members, c.groupId, callerId) &&
      |members| >= 1 &&
      r.body.completedTasks == TotalCompleted(t.completions, tasks) &&
      r.body.totalPossible == |tasks| * |members| &&
      r.body.percentage == RoundPercent(r.body.completedTasks, r.body.totalPossible) &&
      (|tasks| == 0 ==> r.body.percentage == 0) &&
      |r.body.tasks| == |tasks| &&
      forall i :: 0 <= i < |tasks| ==> r.body.tasks[i] == ProgressOf(t.completions, tasks[i]))
  {
    match ChallengeRoutes.ChallengeGate(t, callerId, challengeId)
    case Fail(s) => Fail(s)
    case Ok(_, i) =>
      var c := t.challenges[i];
      var tasks := TasksOf(t.tasks, c.id);
      var members := MembersOf(t.members, c.groupId);
      assert Membership(t.members, c.groupId, callerId).value in members;
      var total := TotalCompleted(t.completions, tasks);
      MulLe(0, |tasks|, |members|);
      var possible := |tasks| * |members|;
      var progress := seq(|tasks|, k requires 0 <= k < |tasks| => ProgressOf(t.completions, tasks[k]));
      Ok(200, ProgressBody(c, total, possible, RoundPercent(total, possible), progress))
  }

  // ---------------------------------------------- the progress bound, proved

  function CompleterKey(c: CompletionRow): Id { c.memberId }

  /** Distinct keys number as many as the records that carry them. */
  lemma {:induction false} KeysCard<T, K>(s: seq<T>, key: T -> K)
    ensures |Keys(s, key)| <= |s|
    ensures Unique(s, key) ==> |Keys(s, key)| == |s|
    decreases |s|
  {
    if s != [] {
      var init := s[..|s| - 1];
      KeysCard(init, key);
      assert Keys(s, key) == Keys(init, key) + {key(s[|s| - 1])};
      if Unique(s, key) {
        assert Unique(init, key);
        assert key(s[|s| - 1]) !in Keys(init, key);
      }
    }
  }

  /** A task's completions name each member at most once, and all of them
      are members of the group: there are no more than there are members. */
  lemma CompletionsPerTask(t: Tables, task: TaskRow, members: seq<MemberRow>)
    requires Consistent(t)
    requires forall c :: c in t.completions && c.taskId == task.id ==> c.memberId in Keys(members, MemberKey)
    ensures |CompletionsOf(t.completions, task.id)| <= |members|
  {
    var cs := CompletionsOf(t.completions, task.id);
    UniqueWhere(t.completions, CompletionPairKey, (c: CompletionRow) => c.taskId == task.id);
    assert Unique(cs, CompleterKey) by {
      forall i, j | 0 <= i < j < |cs| ensures cs[i].memberId != cs[j].memberId {
        assert cs[i] in cs && cs[j] in cs;
        assert CompletionPairKey(cs[i]) != CompletionPairKey(cs[j]);
      }
    }
    KeysCard(cs, CompleterKey);
    KeysCard(members, MemberKey);
    assert Keys(cs, CompleterKey) <= Keys(members, MemberKey) by {
      forall k | k in Keys(cs, CompleterKey) ensures k in Keys(members, MemberKey) {
        var i :| 0 <= i < |cs| && CompleterKey(cs[i]) == k;
        assert cs[i] in cs;
      }
    }
    SubsetCard(Keys(cs, CompleterKey), Keys(members, MemberKey));
  }

  lemma SubsetCard<K>(a: set<K>, b: set<K>)
    requires a <= b
    ensures |a| <= |b|
  {
    assert b == a + (b - a);
  }

  lemma {:induction false} TotalCompletedBounded(t: Tables, tasks: seq<TaskRow>, members: seq<MemberRow>)
    requires Consistent(t)
    requires forall c :: c in t.completions && c.taskId in TaskIds(tasks) ==> c.memberId in Keys(members, MemberKey)
    ensures TotalCompleted(t.completions, tasks) <= |tasks| * |members|
    decreases |tasks|
  {
    if tasks != [] {
      var init := tasks[..|tasks| - 1];
      var last := tasks[|tasks| - 1];
      assert TaskIds(init) <= TaskIds(tasks) by {
        forall k | k in TaskIds(init) ensures k in TaskIds(tasks) {
          var x :| x in init && x.id == k;
          assert x in tasks;
        }
      }
      assert last.id in TaskIds(tasks) by {
        assert last in tasks;
      }
      TotalCompletedBounded(t, init, members);
      CompletionsPerTask(t, last, members);
      assert (|tasks| - 1) * |members| + |members| == |tasks| * |members|;
    }
  }

  function TaskIds(tasks: seq<TaskRow>): set<Id> {
    set k | k in tasks :: k.id
  }

  /** Where every completion of the challenge's tasks was made by a current
      member of the group, the completion percentage lies in [0, 100]. */
  lemma ProgressAtMost100(t: Tables, callerId: Id, challengeId: Id)
    requires Consistent(t)
    requires ChallengeProgress(t, callerId, challengeId).Ok?
    requires var c := ChallengeProgress(t, callerId, challengeId).body.challenge;
      forall x :: x in t.completions && x.taskId in TaskIds(TasksOf(t.tasks, c.id)) ==>
        x.memberId in Keys(MembersOf(t.members, c.groupId), MemberKey)
    ensures 0 <= ChallengeProgress(t, callerId, challengeId).body.percentage <= 100
  {
    var body := ChallengeProgress(t, callerId, challengeId).body;
    var c := body.challenge;
    TotalCompletedBounded(t, TasksOf(t.tasks, c.id), MembersOf(t.members, c.groupId));
    if body.totalPossible > 0 {
      RoundPercentBounds(body.completedTasks, body.totalPossible);
    }
  }
}
