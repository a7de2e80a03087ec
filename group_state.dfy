/** The local-first state of the single-page app and its handlers. The app
    keeps a list of groups, the id of the selected group and the current
    user's id; every handler rebuilds the list with `map`/`filter` and
    commits it with `setGroups`, so each is a transition function here. */
module GroupState {
  import opened Wrappers
  import opened Lists
  import Dates
  import opened AppTypes

  datatype AppState = AppState(groups: seq<Group>, selectedGroupId: Option<string>, currentUserId: UserId)

  function GroupIds(gs: seq<Group>): seq<string> {
    seq(|gs|, i requires 0 <= i < |gs| => gs[i].id)
  }

  function ChallengeIds(cs: seq<Challenge>): seq<string> {
    seq(|cs|, j requires 0 <= j < |cs| => cs[j].id)
  }

  /** `groups.find(g => g.id === id)`; a null id matches no group. */
  function FindGroup(gs: seq<Group>, id: Option<string>): (r: Option<Group>)
    ensures r.Some? <==> id.Some? && id.value in GroupIds(gs)
    ensures r.Some? ==> r.value in gs && r.value.id == id.value
  {
    if id.None? then None
    else
      var i := FirstIndex(GroupIds(gs), id.value);
      if i < 0 then None else Some(gs[i])
  }

  /** `challenges.find(c => c.id === id)`. */
  function FindChallenge(cs: seq<Challenge>, id: string): (r: Option<Challenge>)
    ensures r.Some? <==> id in ChallengeIds(cs)
    ensures r.Some? ==> r.value in cs && r.value.id == id
  {
    var j := FirstIndex(ChallengeIds(cs), id);
    if j < 0 then None else Some(cs[j])
  }

  /** `selectedGroup`. */
  function SelectedGroup(st: AppState): Option<Group> {
    FindGroup(st.groups, st.selectedGroupId)
  }

  predicate UniqueGroupIds(gs: seq<Group>) {
    forall i, j :: 0 <= i < j < |gs| ==> gs[i].id != gs[j].id
  }

  /** `groups.map(g => g.id === gid ? f(g) : g)`. */
  function ReplaceGroups(gs: seq<Group>, gid: string, f: Group -> Group): (r: seq<Group>)
    ensures |r| == |gs|
    ensures forall i :: 0 <= i < |gs| && gs[i].id != gid ==> r[i] == gs[i]
  {
    seq(|gs|, i requires 0 <= i < |gs| => if gs[i].id == gid then f(gs[i]) else gs[i])
  }

  /** Replacing groups by an id-preserving edit keeps every id where it was,
      so `find` then returns the edited group. */
  lemma FindAfterReplace(gs: seq<Group>, gid: string, f: Group -> Group, id: Option<string>)
    requires forall g :: f(g).id == g.id
    ensures GroupIds(ReplaceGroups(gs, gid, f)) == GroupIds(gs)
    ensures FindGroup(ReplaceGroups(gs, gid, f), id) ==
      match FindGroup(gs, id)
      case None => None
      case Some(g) => Some(if g.id == gid then f(g) else g)
  {
    var r := ReplaceGroups(gs, gid, f);
    assert GroupIds(r) == GroupIds(gs);
  }

  // ---------------------------------------------------------------- toggle

  /** Ticking one task: every occurrence of the user's id is removed when it
      is there, otherwise it is appended; `isCompleted` records whether
      anyone has now completed the task. */
  function ToggleCompletion(t: DayTask, user: UserId): (r: DayTask)
    ensures user in CompletedBy(r) <==> user !in CompletedBy(t)
    ensures forall u :: u != user ==> (u in CompletedBy(r) <==> u in CompletedBy(t))
    ensures r.completedBy.Some? && r.isCompleted == Some(|CompletedBy(r)| > 0)
    ensures r == t.(completedBy := r.completedBy, isCompleted := r.isCompleted)
  {
    var current := CompletedBy(t);
    var next := if user in current then RemoveAll(current, user) else current + [user];
    t.(completedBy := Some(next), isCompleted := Some(|next| > 0))
  }

  function ToggleInTasks(ts: seq<DayTask>, dayNumber: int, user: UserId): seq<DayTask> {
    seq(|ts|, k requires 0 <= k < |ts| => if ts[k].dayNumber == dayNumber then ToggleCompletion(ts[k], user) else ts[k])
  }

  function ToggleInChallenges(cs: seq<Challenge>, challengeId: string, dayNumber: int, user: UserId): seq<Challenge> {
    seq(|cs|, j requires 0 <= j < |cs| =>
      if cs[j].id == challengeId then cs[j].(tasks := ToggleInTasks(cs[j].tasks, dayNumber, user)) else cs[j])
  }

  /** The guards of the toggle: a selected group, a challenge with that id
      in it, a task due today and a deadline not yet passed. */
  predicate CanToggle(st: AppState, challengeId: string, dayNumber: int, now: Dates.Instant) {
    SelectedGroup(st).Some? &&
    var c := FindChallenge(SelectedGroup(st).value.challenges, challengeId);
    c.Some? && Dates.IsTaskForToday(c.value.startDate, dayNumber, now) &&
    !Dates.IsDeadlinePassed(c.value.deadlineTime, now)
  }

  /** `handleToggleTask`. */
  function ToggleTask(st: AppState, challengeId: string, dayNumber: int, now: Dates.Instant): (r: AppState)
    ensures !CanToggle(st, challengeId, dayNumber, now) ==> r == st
    ensures r.selectedGroupId == st.selectedGroupId && r.currentUserId == st.currentUserId
    ensures GroupIds(r.groups) == GroupIds(st.groups)
  {
    match SelectedGroup(st)
    case None => st
    case Some(group) =>
      match FindChallenge(group.challenges, challengeId)
      case None => st
      case Some(challenge) =>
        if !Dates.IsTaskForToday(challenge.startDate, dayNumber, now) then st
        else if Dates.IsDeadlinePassed(challenge.deadlineTime, now) then st
        else
          var user := st.currentUserId;
          var f := (g: Group) => g.(challenges := ToggleInChallenges(g.challenges, challengeId, dayNumber, user));
          FindAfterReplace(st.groups, group.id, f, st.selectedGroupId);
          st.(groups := ReplaceGroups(st.groups, group.id, f))
  }

  /** When the guards pass, the toggle flips the current user's membership in
      the completers of the tasks with that day number, in the challenges
      with that id, in the selected group; every other task, every other
      field of a challenge or group and every other group are unchanged. */
  lemma ToggleTaskEffect(st: AppState, challengeId: string, dayNumber: int, now: Dates.Instant, i: int, j: int, k: int)
    requires CanToggle(st, challengeId, dayNumber, now)
    requires 0 <= i < |st.groups| && 0 <= j < |st.groups[i].challenges| && 0 <= k < |st.groups[i].challenges[j].tasks|
    ensures
      var r := ToggleTask(st, challengeId, dayNumber, now);
      var g, g' := st.groups[i], r.groups[i];
      var user := st.currentUserId;
      && g' == g.(challenges := g'.challenges) && |g'.challenges| == |g.challenges|
      && g'.challenges[j] == g.challenges[j].(tasks := g'.challenges[j].tasks)
      && |g'.challenges[j].tasks| == |g.challenges[j].tasks|
      && var t, t' := g.challenges[j].tasks[k], g'.challenges[j].tasks[k];
         if g.id == SelectedGroup(st).value.id && g.challenges[j].id == challengeId && t.dayNumber == dayNumber then
           && (user in CompletedBy(t') <==> user !in CompletedBy(t))
           && (forall u :: u != user ==> (u in CompletedBy(t') <==> u in CompletedBy(t)))
           && t'.isCompleted == Some(|CompletedBy(t')| > 0)
         else t' == t
  {
  }

  /** Ticking twice leaves the same set of completers; when the user had not
      completed the task and its flags were consistent, it restores the
      task exactly. */
  lemma ToggleCompletionTwice(t: DayTask, user: UserId)
    ensures forall u :: u in CompletedBy(ToggleCompletion(ToggleCompletion(t, user), user)) <==> u in CompletedBy(t)
    ensures user !in CompletedBy(t) && t.completedBy.Some? && t.isCompleted == Some(|CompletedBy(t)| > 0) ==>
      ToggleCompletion(ToggleCompletion(t, user), user) == t
  {
    var t1 := ToggleCompletion(t, user);
    if user !in CompletedBy(t) {
      assert CompletedBy(t1) == CompletedBy(t) + [user];
      assert RemoveAll(CompletedBy(t) + [user], user) == CompletedBy(t) by {
        RemoveAllAppend(CompletedBy(t), user);
      }
    }
  }

  lemma {:induction false} RemoveAllAppend(s: seq<UserId>, user: UserId)
    requires user !in s
    ensures RemoveAll(s + [user], user) == s
    decreases |s|
  {
    if s == [] {
      assert s + [user] == [user];
    } else {
      assert (s + [user])[1..] == s[1..] + [user];
      RemoveAllAppend(s[1..], user);
      assert [s[0]] + s[1..] == s;
    }
  }

  /** The user has not completed the tasks with that day number, and their
      flags are consistent. */
  predicate ReadyTask(t: DayTask, dayNumber: int, user: UserId) {
    t.dayNumber == dayNumber ==>
      user !in CompletedBy(t) && t.completedBy.Some? && t.isCompleted == Some(|CompletedBy(t)| > 0)
  }

  predicate ReadyGroups(gs: seq<Group>, gid: string, challengeId: string, dayNumber: int, user: UserId) {
    forall i, j, k ::
      (0 <= i < |gs| && gs[i].id == gid && 0 <= j < |gs[i].challenges| &&
       gs[i].challenges[j].id == challengeId && 0 <= k < |gs[i].challenges[j].tasks|) ==>
      ReadyTask(gs[i].challenges[j].tasks[k], dayNumber, user)
  }

  /** Toggling the tasks of a challenge list twice gives it back when every
      targeted task is ready. */
  lemma ToggleInChallengesTwice(cs: seq<Challenge>, challengeId: string, dayNumber: int, user: UserId)
    requires forall j, k :: 0 <= j < |cs| && cs[j].id == challengeId && 0 <= k < |cs[j].tasks| ==>
      ReadyTask(cs[j].tasks[k], dayNumber, user)
    ensures ToggleInChallenges(ToggleInChallenges(cs, challengeId, dayNumber, user), challengeId, dayNumber, user) == cs
  {
    var cs2 := ToggleInChallenges(ToggleInChallenges(cs, challengeId, dayNumber, user), challengeId, dayNumber, user);
    forall j | 0 <= j < |cs| ensures cs2[j] == cs[j] {
      var c := cs[j];
      if c.id == challengeId {
        forall k | 0 <= k < |c.tasks| ensures cs2[j].tasks[k] == c.tasks[k] {
          ToggleCompletionTwice(c.tasks[k], user);
        }
      }
    }
  }

  /** The toggle's guards still hold after it: ids, start dates and
      deadlines are untouched. */
  lemma ToggleTaskKeepsGuards(st: AppState, challengeId: string, dayNumber: int, now: Dates.Instant)
    requires CanToggle(st, challengeId, dayNumber, now)
    ensures CanToggle(ToggleTask(st, challengeId, dayNumber, now), challengeId, dayNumber, now)
  {
    var user := st.currentUserId;
    var group := SelectedGroup(st).value;
    var f := (g: Group) => g.(challenges := ToggleInChallenges(g.challenges, challengeId, dayNumber, user));
    var r := ToggleTask(st, challengeId, dayNumber, now);
    FindAfterReplace(st.groups, group.id, f, st.selectedGroupId);
    assert r.groups == ReplaceGroups(st.groups, group.id, f);
    assert SelectedGroup(r) == Some(f(group));
    var cs := group.challenges;
    var cs' := ToggleInChallenges(cs, challengeId, dayNumber, user);
    assert ChallengeIds(cs') == ChallengeIds(cs);
    var jj := FirstIndex(ChallengeIds(cs), challengeId);
    assert FindChallenge(cs', challengeId) == Some(cs'[jj]);
  }

  /** The toggle's guards still hold after it, and toggling a second time
      undoes the first when the user had not completed the targeted tasks. */
  lemma ToggleTaskTwice(st: AppState, challengeId: string, dayNumber: int, now: Dates.Instant)
    requires CanToggle(st, challengeId, dayNumber, now)
    requires ReadyGroups(st.groups, SelectedGroup(st).value.id, challengeId, dayNumber, st.currentUserId)
    ensures CanToggle(ToggleTask(st, challengeId, dayNumber, now), challengeId, dayNumber, now)
    ensures ToggleTask(ToggleTask(st, challengeId, dayNumber, now), challengeId, dayNumber, now) == st
  {
    var user := st.currentUserId;
    var group := SelectedGroup(st).value;
    var f := (g: Group) => g.(challenges := ToggleInChallenges(g.challenges, challengeId, dayNumber, user));
    var r := ToggleTask(st, challengeId, dayNumber, now);
    ToggleTaskKeepsGuards(st, challengeId, dayNumber, now);
    FindAfterReplace(st.groups, group.id, f, st.selectedGroupId);
    assert r.groups == ReplaceGroups(st.groups, group.id, f);
    var r2 := ToggleTask(r, challengeId, dayNumber, now);
    assert SelectedGroup(r) == Some(f(group));
    assert r2.groups == ReplaceGroups(r.groups, group.id, f);
    forall i | 0 <= i < |st.groups|
      ensures r2.groups[i] == st.groups[i]
    {
      var g := st.groups[i];
      if g.id == group.id {
        ToggleInChallengesTwice(g.challenges, challengeId, dayNumber, user);
      }
    }
  }

  // ---------------------------------------------------------- delete vote

  /** The approvals after the current user's vote: the vote toggles the
      user's id. */
  function NewApprovals(g: Group, user: UserId): (r: seq<UserId>)
    ensures user in r <==> user !in g.deleteApprovals.GetOr([])
    ensures forall u :: u != user ==> (u in r <==> u in g.deleteApprovals.GetOr([]))
  {
    var approvals := g.deleteApprovals.GetOr([]);
    if user in approvals then RemoveAll(approvals, user) else approvals + [user]
  }

  /** The vote's effect on one group of the list: None when it is deleted. */
  function VoteOn(g: Group, gid: string, user: UserId): Option<Group> {
    if g.id != gid then Some(g)
    else
      var approvals := NewApprovals(g, user);
      if |approvals| >= |g.members| then None else Some(g.(deleteApprovals := Some(approvals)))
  }

  /** What `map` then `filter(Boolean)` keep of one group: nothing when the
      vote deleted it. */
  function Survivor(g: Group, gid: string, user: UserId): seq<Group> {
    match VoteOn(g, gid, user) case None => [] case Some(h) => [h]
  }

  function VoteGroups(gs: seq<Group>, gid: string, user: UserId): (r: seq<Group>)
    ensures |r| <= |gs|
    decreases |gs|
  {
    if gs == [] then []
    else
      assert gs == [gs[0]] + gs[1..];
      Survivor(gs[0], gid, user) + VoteGroups(gs[1..], gid, user)
  }

  /** `handleVoteDeleteGroup`. */
  function VoteDeleteGroup(st: AppState): (r: AppState)
    ensures SelectedGroup(st).None? ==> r == st
    ensures r.currentUserId == st.currentUserId
    ensures SelectedGroup(st).Some? ==>
      (r.selectedGroupId.Some? <==> st.selectedGroupId.value in GroupIds(r.groups)) &&
      (r.selectedGroupId.Some? ==> r.selectedGroupId == st.selectedGroupId)
  {
    match SelectedGroup(st)
    case None => st
    case Some(group) =>
      var gs := VoteGroups(st.groups, group.id, st.currentUserId);
      var selected := if |gs| == 0 then None else if FindGroup(gs, st.selectedGroupId).None? then None else st.selectedGroupId;
      AppState(gs, selected, st.currentUserId)
  }

  lemma {:induction false} VoteGroupsAppend(a: seq<Group>, b: seq<Group>, gid: string, user: UserId)
    ensures VoteGroups(a + b, gid, user) == VoteGroups(a, gid, user) + VoteGroups(b, gid, user)
    decreases |a|
  {
    if a == [] {
      assert a + b == b;
    } else {
      assert (a + b)[1..] == a[1..] + b;
      VoteGroupsAppend(a[1..], b, gid, user);
    }
  }

  lemma {:induction false} VoteGroupsUntargeted(a: seq<Group>, gid: string, user: UserId)
    requires forall g :: g in a ==> g.id != gid
    ensures VoteGroups(a, gid, user) == a
    decreases |a|
  {
    if a != [] {
      VoteGroupsUntargeted(a[1..], gid, user);
      assert [a[0]] + a[1..] == a;
    }
  }

  /** With unique ids, the group at position i is the one `find` returns. */
  lemma FindUnique(gs: seq<Group>, i: int)
    requires UniqueGroupIds(gs) && 0 <= i < |gs|
    ensures FindGroup(gs, Some(gs[i].id)) == Some(gs[i])
  {
    assert GroupIds(gs)[i] == gs[i].id;
    var fi := FirstIndex(GroupIds(gs), gs[i].id);
    assert gs[fi].id == gs[i].id;
  }

  /** With unique ids, voting on the first group touches only it. */
  lemma VoteGroupsAtHead(gs: seq<Group>, user: UserId)
    requires UniqueGroupIds(gs) && |gs| > 0
    ensures VoteGroups(gs, gs[0].id, user) == Survivor(gs[0], gs[0].id, user) + gs[1..]
  {
    var rest := gs[1..];
    forall g | g in rest ensures g.id != gs[0].id {
      var x :| 0 <= x < |rest| && rest[x] == g;
      assert g == gs[x + 1];
    }
    VoteGroupsUntargeted(rest, gs[0].id, user);
  }

  /** With unique ids, voting on the group at position i touches only it. */
  lemma {:induction false} VoteGroupsAt(gs: seq<Group>, i: int, user: UserId)
    requires UniqueGroupIds(gs) && 0 <= i < |gs|
    ensures VoteGroups(gs, gs[i].id, user) ==
      gs[..i] + Survivor(gs[i], gs[i].id, user) + gs[i + 1..]
    decreases i
  {
    if i == 0 {
      VoteGroupsAtHead(gs, user);
      assert gs[..0] == [];
    } else {
      var gid := gs[i].id;
      var rest := gs[1..];
      var mid := Survivor(gs[i], gid, user);
      assert rest[i - 1] == gs[i];
      assert UniqueGroupIds(rest) by {
        forall a, b | 0 <= a < b < |rest| ensures rest[a].id != rest[b].id {
          assert rest[a] == gs[a + 1] && rest[b] == gs[b + 1];
        }
      }
      VoteGroupsAt(rest, i - 1, user);
      assert VoteOn(gs[0], gid, user) == Some(gs[0]);
      VoteGroupsCons(gs, gid, user);
      SpliceCons(gs, i, mid);
    }
  }

  lemma VoteGroupsCons(gs: seq<Group>, gid: string, user: UserId)
    requires |gs| > 0
    ensures VoteGroups(gs, gid, user) == Survivor(gs[0], gid, user) + VoteGroups(gs[1..], gid, user)
  {
  }

  /** Splicing into the tail, then putting the head back, splices into the
      whole list one place further on. */
  lemma SpliceCons(gs: seq<Group>, i: int, mid: seq<Group>)
    requires 0 < i < |gs|
    ensures [gs[0]] + (gs[1..][..i - 1] + mid + gs[1..][i..]) == gs[..i] + mid + gs[i + 1..]
  {
    assert gs[..i] == [gs[0]] + gs[1..][..i - 1];
    assert gs[i + 1..] == gs[1..][i..];
  }

  /** The lists the vote leaves behind when it deletes the group at i: no
      group in it carries that id any more. */
  lemma RemovedIdGone(gs: seq<Group>, i: int)
    requires UniqueGroupIds(gs) && 0 <= i < |gs|
    ensures gs[i].id !in GroupIds(gs[..i] + gs[i + 1..])
  {
    var rest := gs[..i] + gs[i + 1..];
    forall x | 0 <= x < |rest| ensures GroupIds(rest)[x] != gs[i].id {
      if x < i {
        assert rest[x] == gs[x];
      } else {
        assert rest[x] == gs[x + 1];
      }
    }
  }

  lemma VoteDeleteRemoves(st: AppState, i: int)
    requires UniqueGroupIds(st.groups) && 0 <= i < |st.groups| && st.selectedGroupId == Some(st.groups[i].id)
    requires |NewApprovals(st.groups[i], st.currentUserId)| >= |st.groups[i].members|
    ensures VoteDeleteGroup(st) == AppState(st.groups[..i] + st.groups[i + 1..], None, st.currentUserId)
  {
    var gs := st.groups;
    var rest := gs[..i] + gs[i + 1..];
    FindUnique(gs, i);
    VoteGroupsAt(gs, i, st.currentUserId);
    assert VoteOn(gs[i], gs[i].id, st.currentUserId) == None;
    assert VoteGroups(gs, gs[i].id, st.currentUserId) == rest;
    RemovedIdGone(gs, i);
    assert FindGroup(rest, st.selectedGroupId).None?;
  }

  lemma VoteDeleteKeeps(st: AppState, i: int)
    requires UniqueGroupIds(st.groups) && 0 <= i < |st.groups| && st.selectedGroupId == Some(st.groups[i].id)
    requires |NewApprovals(st.groups[i], st.currentUserId)| < |st.groups[i].members|
    ensures VoteDeleteGroup(st) ==
      st.(groups := st.groups[i := st.groups[i].(deleteApprovals := Some(NewApprovals(st.groups[i], st.currentUserId)))])
  {
    var gs := st.groups;
    var g' := gs[i].(deleteApprovals := Some(NewApprovals(gs[i], st.currentUserId)));
    FindUnique(gs, i);
    VoteGroupsAt(gs, i, st.currentUserId);
    assert VoteOn(gs[i], gs[i].id, st.currentUserId) == Some(g');
    var voted := gs[..i] + [g'] + gs[i + 1..];
    assert gs[i := g'] == voted;
    assert GroupIds(voted)[i] == gs[i].id;
  }

  /** With unique group ids: the selected group is removed exactly when the
      new approval count reaches its member count (and then nothing stays
      selected); otherwise only its approvals change. Every other group is
      kept in place. */
  lemma VoteDeleteOutcome(st: AppState, i: int)
    requires UniqueGroupIds(st.groups) && 0 <= i < |st.groups| && st.selectedGroupId == Some(st.groups[i].id)
    ensures
      var g, r := st.groups[i], VoteDeleteGroup(st);
      var approvals := NewApprovals(g, st.currentUserId);
      if |approvals| >= |g.members| then
        r.groups == st.groups[..i] + st.groups[i + 1..] && r.selectedGroupId == None
      else
        r.groups == st.groups[i := g.(deleteApprovals := Some(approvals))] && r.selectedGroupId == st.selectedGroupId
  {
    if |NewApprovals(st.groups[i], st.currentUserId)| >= |st.groups[i].members| {
      VoteDeleteRemoves(st, i);
    } else {
      VoteDeleteKeeps(st, i);
    }
  }

  /** Voting twice, when the group survives both votes, gives back the same
      set of approvals. */
  lemma VoteTwiceRestoresApprovals(g: Group, user: UserId)
    ensures
      var once := g.(deleteApprovals := Some(NewApprovals(g, user)));
      forall u :: u in NewApprovals(once, user) <==> u in g.deleteApprovals.GetOr([])
  {
    var once := g.(deleteApprovals := Some(NewApprovals(g, user)));
    assert once.deleteApprovals.GetOr([]) == NewApprovals(g, user);
  }

  // ------------------------------------------------- save / delete challenge

  /** Replace the first challenge with the same id, or append. */
  function Upsert(cs: seq<Challenge>, challenge: Challenge): (r: seq<Challenge>)
    ensures FindChallenge(r, challenge.id) == Some(challenge)
    ensures challenge.id in ChallengeIds(cs) ==> |r| == |cs|
    ensures var j := FirstIndex(ChallengeIds(cs), challenge.id);
      j >= 0 ==> j < |cs| && r == cs[j := challenge]
    ensures challenge.id !in ChallengeIds(cs) ==> r == cs + [challenge]
    ensures forall c :: c in cs && c.id != challenge.id ==> c in r
    ensures forall c :: c in r ==> c == challenge || c in cs
  {
    var j := FirstIndex(ChallengeIds(cs), challenge.id);
    if j >= 0 then
      var r := cs[j := challenge];
      assert ChallengeIds(r) == ChallengeIds(cs);
      assert forall c :: c in cs && c.id != challenge.id ==> c in r by {
        forall c | c in cs && c.id != challenge.id ensures c in r {
          var x :| 0 <= x < |cs| && cs[x] == c;
          assert r[x] == c;
        }
      }
      r
    else
      var r := cs + [challenge];
      assert ChallengeIds(r) == ChallengeIds(cs) + [challenge.id];
      assert FirstIndex(ChallengeIds(r), challenge.id) == |cs|;
      r
  }

  /** Saving keeps challenge ids unique within a group. */
  lemma UpsertKeepsIdsUnique(cs: seq<Challenge>, challenge: Challenge)
    requires NoDuplicates(ChallengeIds(cs))
    ensures NoDuplicates(ChallengeIds(Upsert(cs, challenge)))
  {
    var j := FirstIndex(ChallengeIds(cs), challenge.id);
    if j >= 0 {
      assert ChallengeIds(Upsert(cs, challenge)) == ChallengeIds(cs);
    } else {
      assert ChallengeIds(Upsert(cs, challenge)) == ChallengeIds(cs) + [challenge.id];
    }
  }

  /** `challenges.filter(c => c.id !== challengeId)`. */
  function RemoveChallenge(cs: seq<Challenge>, challengeId: string): (r: seq<Challenge>)
    ensures forall c :: c in r <==> c in cs && c.id != challengeId
    decreases |cs|
  {
    if cs == [] then []
    else
      var rest := RemoveChallenge(cs[1..], challengeId);
      assert cs == [cs[0]] + cs[1..];
      if cs[0].id == challengeId then rest
      else
        [cs[0]] + rest
  }

  /** No challenge with the id is left. */
  lemma RemoveChallengeDropsId(cs: seq<Challenge>, challengeId: string)
    ensures challengeId !in ChallengeIds(RemoveChallenge(cs, challengeId))
  {
  }

  lemma {:induction false} RemoveChallengeAbsent(cs: seq<Challenge>, challengeId: string)
    requires challengeId !in ChallengeIds(cs)
    ensures RemoveChallenge(cs, challengeId) == cs
    decreases |cs|
  {
    if cs != [] {
      assert cs[0].id == ChallengeIds(cs)[0];
      assert ChallengeIds(cs[1..]) == ChallengeIds(cs)[1..];
      RemoveChallengeAbsent(cs[1..], challengeId);
      assert [cs[0]] + cs[1..] == cs;
    }
  }

  lemma {:induction false} RemoveChallengeAppend(cs: seq<Challenge>, c: Challenge)
    ensures RemoveChallenge(cs + [c], c.id) == RemoveChallenge(cs, c.id)
    decreases |cs|
  {
    if cs == [] {
      assert cs + [c] == [c];
    } else {
      assert (cs + [c])[1..] == cs[1..] + [c];
      RemoveChallengeAppend(cs[1..], c);
    }
  }

  /** Removing from a single challenge drops it exactly when it has the id. */
  lemma RemoveChallengeSingle(c: Challenge, challengeId: string)
    ensures RemoveChallenge([c], challengeId) == if c.id == challengeId then [] else [c]
  {
    assert [c][1..] == [];
  }

  /** Removing keeps the order of what remains: it works piece by piece, so
      with `RemoveChallengeSingle` the result is the list with the matching
      challenges struck out. */
  lemma {:induction false} RemoveChallengeConcat(a: seq<Challenge>, b: seq<Challenge>, challengeId: string)
    ensures RemoveChallenge(a + b, challengeId) == RemoveChallenge(a, challengeId) + RemoveChallenge(b, challengeId)
    decreases |a|
  {
    if a == [] {
      assert a + b == b;
    } else {
      var head := if a[0].id == challengeId then [] else [a[0]];
      calc {
        RemoveChallenge(a + b, challengeId);
      == { assert (a + b)[0] == a[0] && (a + b)[1..] == a[1..] + b;
           RemoveChallengeUnfold(a + b, challengeId); }
        head + RemoveChallenge(a[1..] + b, challengeId);
      == { RemoveChallengeConcat(a[1..], b, challengeId); }
        head + (RemoveChallenge(a[1..], challengeId) + RemoveChallenge(b, challengeId));
      == { RemoveChallengeUnfold(a, challengeId); }
        RemoveChallenge(a, challengeId) + RemoveChallenge(b, challengeId);
      }
    }
  }

  lemma RemoveChallengeUnfold(cs: seq<Challenge>, challengeId: string)
    requires cs != []
    ensures RemoveChallenge(cs, challengeId) ==
      (if cs[0].id == challengeId then [] else [cs[0]]) + RemoveChallenge(cs[1..], challengeId)
  {
  }

  /** Creating a challenge and then deleting it gives back the list. */
  lemma SaveThenDelete(cs: seq<Challenge>, challenge: Challenge)
    requires challenge.id !in ChallengeIds(cs)
    ensures RemoveChallenge(Upsert(cs, challenge), challenge.id) == cs
  {
    RemoveChallengeAppend(cs, challenge);
    RemoveChallengeAbsent(cs, challenge.id);
  }

  /** `handleSaveChallenge`: the selected group's challenge list gets the
      challenge, in place of the one with its id or at the end. */
  function SaveChallenge(st: AppState, challenge: Challenge): (r: AppState)
    ensures SelectedGroup(st).None? ==> r == st
    ensures r.selectedGroupId == st.selectedGroupId && GroupIds(r.groups) == GroupIds(st.groups)
    ensures SelectedGroup(st).Some? ==>
      SelectedGroup(r) == Some(SelectedGroup(st).value.(challenges := Upsert(SelectedGroup(st).value.challenges, challenge)))
    ensures SelectedGroup(st).Some? ==> FindChallenge(SelectedGroup(r).value.challenges, challenge.id) == Some(challenge)
    ensures |r.groups| == |st.groups| && r.currentUserId == st.currentUserId
    ensures SelectedGroup(st).Some? ==>
      forall i :: 0 <= i < |st.groups| && st.groups[i].id != SelectedGroup(st).value.id ==> r.groups[i] == st.groups[i]
  {
    match SelectedGroup(st)
    case None => st
    case Some(group) =>
      var f := (g: Group) => g.(challenges := Upsert(g.challenges, challenge));
      FindAfterReplace(st.groups, group.id, f, st.selectedGroupId);
      st.(groups := ReplaceGroups(st.groups, group.id, f))
  }

  /** `handleDeleteChallenge`: the selected group loses every challenge with
      that id and keeps the others in order. */
  function DeleteChallenge(st: AppState, challengeId: string): (r: AppState)
    ensures SelectedGroup(st).None? ==> r == st
    ensures r.selectedGroupId == st.selectedGroupId && GroupIds(r.groups) == GroupIds(st.groups)
    ensures SelectedGroup(st).Some? ==>
      SelectedGroup(r) == Some(SelectedGroup(st).value.(challenges := RemoveChallenge(SelectedGroup(st).value.challenges, challengeId)))
    ensures SelectedGroup(st).Some? ==> FindChallenge(SelectedGroup(r).value.challenges, challengeId).None?
    ensures |r.groups| == |st.groups| && r.currentUserId == st.currentUserId
    ensures SelectedGroup(st).Some? ==>
      forall i :: 0 <= i < |st.groups| && st.groups[i].id != SelectedGroup(st).value.id ==> r.groups[i] == st.groups[i]
  {
    match SelectedGroup(st)
    case None => st
    case Some(group) =>
      var f := (g: Group) => g.(challenges := RemoveChallenge(g.challenges, challengeId));
      FindAfterReplace(st.groups, group.id, f, st.selectedGroupId);
      RemoveChallengeDropsId(group.challenges, challengeId);
      st.(groups := ReplaceGroups(st.groups, group.id, f))
  }

  // ------------------------------------------------------------- members

  /** The fields a member update may carry; None leaves the field as it is. */
  datatype MemberPatch = MemberPatch(
    displayName: Option<string>,
    avatar: Option<string>,
    strikes: Option<int>,
    penaltiesPaid: Option<int>)

  /** `{ ...m, ...updates }`. */
  function ApplyPatch(m: GroupMember, p: MemberPatch): (r: GroupMember)
    ensures r.userId == m.userId && r.role == m.role && r.joinedAt == m.joinedAt
    ensures r.displayName == p.displayName.GetOr(m.displayName) && r.avatar == p.avatar.GetOr(m.avatar)
    ensures r.strikes == (if p.strikes.Some? then p.strikes else m.strikes)
    ensures r.penaltiesPaid == (if p.penaltiesPaid.Some? then p.penaltiesPaid else m.penaltiesPaid)
  {
    m.(displayName := p.displayName.GetOr(m.displayName), avatar := p.avatar.GetOr(m.avatar),
       strikes := if p.strikes.Some? then p.strikes else m.strikes,
       penaltiesPaid := if p.penaltiesPaid.Some? then p.penaltiesPaid else m.penaltiesPaid)
  }

  function PatchMembers(ms: seq<GroupMember>, userId: UserId, p: MemberPatch): seq<GroupMember> {
    seq(|ms|, k requires 0 <= k < |ms| => if ms[k].userId == userId then ApplyPatch(ms[k], p) else ms[k])
  }

  /** `handleUpdateMember`. */
  function UpdateMember(st: AppState, userId: UserId, p: MemberPatch): (r: AppState)
    ensures SelectedGroup(st).None? ==> r == st
    ensures r.selectedGroupId == st.selectedGroupId && GroupIds(r.groups) == GroupIds(st.groups)
    ensures SelectedGroup(st).Some? ==>
      SelectedGroup(r) == Some(SelectedGroup(st).value.(members := PatchMembers(SelectedGroup(st).value.members, userId, p)))
    ensures |r.groups| == |st.groups| && r.currentUserId == st.currentUserId
    ensures SelectedGroup(st).Some? ==>
      forall i :: 0 <= i < |st.groups| && st.groups[i].id != SelectedGroup(st).value.id ==> r.groups[i] == st.groups[i]
  {
    match SelectedGroup(st)
    case None => st
    case Some(group) =>
      var f := (g: Group) => g.(members := PatchMembers(g.members, userId, p));
      FindAfterReplace(st.groups, group.id, f, st.selectedGroupId);
      st.(groups := ReplaceGroups(st.groups, group.id, f))
  }

  /** A member update changes only the members with that id, and only the
      fields the patch carries; membership itself is unchanged. */
  lemma PatchMembersEffect(ms: seq<GroupMember>, userId: UserId, p: MemberPatch)
    ensures var r := PatchMembers(ms, userId, p);
      |r| == |ms| &&
      (forall k :: 0 <= k < |ms| ==> r[k].userId == ms[k].userId) &&
      (forall k :: 0 <= k < |ms| && ms[k].userId != userId ==> r[k] == ms[k]) &&
      (forall u :: IsMember(r, u) <==> IsMember(ms, u))
  {
    var r := PatchMembers(ms, userId, p);
    forall u ensures IsMember(r, u) <==> IsMember(ms, u) {
      if IsMember(ms, u) {
        var k :| 0 <= k < |ms| && ms[k].userId == u;
        assert r[k].userId == u;
      }
    }
  }

  /** `handleUpdateProfile`: the current user's name and avatar, in the
      selected group. */
  function UpdateProfile(st: AppState, name: string, avatar: string): AppState {
    match SelectedGroup(st)
    case None => st
    case Some(group) =>
      var user := st.currentUserId;
      st.(groups := ReplaceGroups(st.groups, group.id,
        (g: Group) => g.(members := seq(|g.members|, k requires 0 <= k < |g.members| =>
          if g.members[k].userId == user then g.members[k].(displayName := name, avatar := avatar) else g.members[k]))))
  }

  /** The profile update is the member update of the current user carrying a
      name and an avatar. */
  lemma UpdateProfileIsMemberPatch(st: AppState, name: string, avatar: string)
    ensures UpdateProfile(st, name, avatar) == UpdateMember(st, st.currentUserId, MemberPatch(Some(name), Some(avatar), None, None))
  {
    if SelectedGroup(st).Some? {
      var group := SelectedGroup(st).value;
      var p := MemberPatch(Some(name), Some(avatar), None, None);
      var a := UpdateProfile(st, name, avatar);
      var b := UpdateMember(st, st.currentUserId, p);
      assert |a.groups| == |b.groups|;
      forall i | 0 <= i < |st.groups| ensures a.groups[i] == b.groups[i] {
        var g := st.groups[i];
        if g.id == group.id {
          assert a.groups[i].members == PatchMembers(g.members, st.currentUserId, p);
        }
      }
    }
  }

  /** `handleUpdateGroup`: name, icon, theme and penalty rule of the selected
      group (an absent rule clears it). */
  function UpdateGroup(st: AppState, name: string, icon: string, theme: string, config: Option<PenaltyConfig>): (r: AppState)
    ensures SelectedGroup(st).None? ==> r == st
    ensures r.selectedGroupId == st.selectedGroupId && GroupIds(r.groups) == GroupIds(st.groups)
    ensures SelectedGroup(st).Some? ==>
      SelectedGroup(r) == Some(SelectedGroup(st).value.(name := name, icon := icon, theme := Some(theme), penaltyConfig := config))
    ensures |r.groups| == |st.groups| && r.currentUserId == st.currentUserId
    ensures SelectedGroup(st).Some? ==>
      forall i :: 0 <= i < |st.groups| && st.groups[i].id != SelectedGroup(st).value.id ==> r.groups[i] == st.groups[i]
  {
    match SelectedGroup(st)
    case None => st
    case Some(group) =>
      var f := (g: Group) => g.(name := name, icon := icon, theme := Some(theme), penaltyConfig := config);
      FindAfterReplace(st.groups, group.id, f, st.selectedGroupId);
      st.(groups := ReplaceGroups(st.groups, group.id, f))
  }

  // ------------------------------------------------------- create and join

  /** The avatar a group's creator gets, as the source file's literal reads:
      the four characters U+F8FF, U+00FC, U+00EB, U+00EB (the crown emoji's
      UTF-8 bytes once decoded as Mac Roman and re-encoded). */
  const AdminAvatar: string := "\U{F8FF}\U{FC}\U{EB}\U{EB}"

  /** `handleCreateGroup`: a group whose only member is the current user, as
      admin, appended to the list. */
  function CreateGroup(st: AppState, newId: string, name: string, icon: string, theme: string, now: int): (r: AppState)
    ensures |r.groups| == |st.groups| + 1 && r.groups[..|st.groups|] == st.groups
    ensures r.selectedGroupId == st.selectedGroupId && r.currentUserId == st.currentUserId
    ensures var g := r.groups[|st.groups|];
      && g.id == newId && g.name == name && |g.members| == 1 && g.challenges == [] && g.pendingRequests == []
      && g.members[0].userId == st.currentUserId && g.members[0].role == Admin
      && g.members[0].displayName == "Admin" && g.members[0].avatar == AdminAvatar
      && g.deleteApprovals.None? && g.penaltyConfig.None?
  {
    var admin := GroupMember(st.currentUserId, "Admin", AdminAvatar, Admin, now, None, None);
    var g := Group(newId, name, icon, Some(theme), [admin], [], [], now, None, None);
    st.(groups := st.groups + [g])
  }

  /** With a fresh id, the new group is found by its id and the creator is
      its admin. */
  lemma CreatedGroupIsFound(st: AppState, newId: string, name: string, icon: string, theme: string, now: int)
    requires newId !in GroupIds(st.groups)
    ensures var r := CreateGroup(st, newId, name, icon, theme, now);
      var g := FindGroup(r.groups, Some(newId));
      g == Some(r.groups[|st.groups|]) &&
      FindMember(g.value.members, st.currentUserId).Some? &&
      FindMember(g.value.members, st.currentUserId).value.role == Admin
  {
    var r := CreateGroup(st, newId, name, icon, theme, now);
    assert GroupIds(r.groups) == GroupIds(st.groups) + [newId];
    assert FirstIndex(GroupIds(r.groups), newId) == |st.groups|;
  }

  /** Joining the selected group (offered only while the current user is not
      one of its members): the user is appended as a plain member. */
  function JoinGroup(st: AppState, name: string, avatar: string, now: int): (r: AppState)
    ensures r.selectedGroupId == st.selectedGroupId && GroupIds(r.groups) == GroupIds(st.groups)
    ensures SelectedGroup(st).None? || IsMember(SelectedGroup(st).value.members, st.currentUserId) ==> r == st
  {
    match SelectedGroup(st)
    case None => st
    case Some(group) =>
      if IsMember(group.members, st.currentUserId) then st
      else
        var m := GroupMember(st.currentUserId, name, avatar, Member, now, None, None);
        var f := (g: Group) => g.(members := g.members + [m]);
        FindAfterReplace(st.groups, group.id, f, st.selectedGroupId);
        st.(groups := ReplaceGroups(st.groups, group.id, f))
  }

  /** After joining, the current user is a member of the selected group with
      role 'member', and a second join changes nothing. */
  lemma JoinGroupEffect(st: AppState, name: string, avatar: string, now: int)
    requires SelectedGroup(st).Some? && !IsMember(SelectedGroup(st).value.members, st.currentUserId)
    ensures var r := JoinGroup(st, name, avatar, now);
      && SelectedGroup(r).Some?
      && FindMember(SelectedGroup(r).value.members, st.currentUserId) ==
         Some(GroupMember(st.currentUserId, name, avatar, Member, now, None, None))
      && JoinGroup(r, name, avatar, now) == r
  {
    var group := SelectedGroup(st).value;
    var m := GroupMember(st.currentUserId, name, avatar, Member, now, None, None);
    var f := (g: Group) => g.(members := g.members + [m]);
    FindAfterReplace(st.groups, group.id, f, st.selectedGroupId);
    var r := JoinGroup(st, name, avatar, now);
    assert SelectedGroup(r) == Some(f(group));
    FindMemberAppend(group.members, m);
    assert IsMember(f(group).members, st.currentUserId) by {
      assert f(group).members[|group.members|] == m;
    }
  }

  lemma {:induction false} FindMemberAppend(ms: seq<GroupMember>, m: GroupMember)
    requires !IsMember(ms, m.userId)
    ensures FindMember(ms + [m], m.userId) == Some(m)
    decreases |ms|
  {
    if ms == [] {
      assert ms + [m] == [m];
    } else {
      assert (ms + [m])[1..] == ms[1..] + [m];
      assert forall k :: 0 <= k < |ms[1..]| ==> ms[1..][k] == ms[k + 1];
      assert ms[0].userId != m.userId;
      FindMemberAppend(ms[1..], m);
    }
  }
}
